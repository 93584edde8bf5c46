/** The node pool of the hash map (map/mymap32.cpp): which nodes are in the map, which are free, and
    what becomes of their number over any run of set, del and clean. */
module NodePool {
  import opened MyList

  // ---------- the pool test ----------

  const NODE_SIZE := 48

  /** (node - mem) / sizeof(Node), kept in an int. The difference already counts nodes; the
      division is unsigned because sizeof is. */
  function PoolIndex(place: int): int {
    var x := place % 0x1_0000_0000_0000_0000 / NODE_SIZE % 0x1_0000_0000;
    if x < 0x8000_0000 then x else x - 0x1_0000_0000
  }

  predicate TakenForPool(place: int, maxSize: nat) {
    0 <= PoolIndex(place) < maxSize
  }

  /** Nodes of the pool pass the test. Of all nodes, those pass it whose distance from the pool's
      start, taken modulo 2^64 and then modulo 48 * 2^32, is less than 48 * max_size nodes. */
  lemma PoolTest(place: int, maxSize: nat)
    requires maxSize < 0x8000_0000
    ensures TakenForPool(place, maxSize) <==>
      place % 0x1_0000_0000_0000_0000 % 0x30_0000_0000 < 48 * maxSize
    ensures 0 <= place < maxSize ==> TakenForPool(place, maxSize)
  {
    var x := place % 0x1_0000_0000_0000_0000;
    assert x / NODE_SIZE % 0x1_0000_0000 == x % (NODE_SIZE * 0x1_0000_0000) / NODE_SIZE;
  }

  // ---------- the nodes ----------

  type Key = k: int | 0 <= k < 0x1_0000_0000_0000_0000

  /** live gives the key of each node in the map, at the node of each key. */
  predicate Inverse(live: map<nat, Key>, at: map<Key, nat>) {
    && (forall n :: n in live ==> live[n] in at && at[live[n]] == n)
    && forall k :: k in at ==> at[k] in live && live[at[k]] == k
  }

  /** The link list holds exactly the live nodes. */
  predicate LinksOk(ring: seq<Ptr>, live: map<nat, Key>) {
    (forall x :: x in ring ==> x.Link? && x.node in live) && forall n :: n in live ==> Link(n) in ring
  }

  /** The free list holds other nodes in memory. */
  predicate FreeNodes(ring: seq<Ptr>, live: map<nat, Key>, memory: set<nat>) {
    forall x :: x in ring ==> x.Link? && x.node in memory && x.node !in live
  }

  /** Nodes below maxSize are in their places in the pool. */
  predicate PoolInPlace(place: map<nat, int>, maxSize: nat) {
    forall n :: n in place && n < maxSize ==> place[n] == n
  }

  function Below(n: nat): (s: set<nat>)
    ensures |s| == n && forall m: nat :: m in s <==> m < n
  {
    if n == 0 then {} else Below(n - 1) + {n - 1}
  }

  function OfPool(nodes: set<nat>, maxSize: nat): set<nat> {
    set n | n in nodes && n < maxSize
  }

  function NodeOf(x: Ptr): nat {
    if x.Link? then x.node else 0
  }

  /** The list without the first x in it. */
  function Dropped(s: seq<Ptr>, x: Ptr): (r: seq<Ptr>)
    ensures |r| == if x in s then |s| - 1 else |s|
  {
    if s == [] then [] else if s[0] == x then s[1..] else [s[0]] + Dropped(s[1..], x)
  }

  /** All that is known of the nodes: the keys of those in the map, the distance of each from the
      start of the pool, the free list, and the link list. Nodes below maxSize are the pool. */
  datatype Pool = Pool(maxSize: nat, live: map<nat, Key>, at: map<Key, nat>, place: map<nat, int>, free: seq<Ptr>,
                       order: seq<Ptr>) {
    /** A node that is not of the pool and passes the pool test. */
    predicate Stray(n: nat) {
      n >= maxSize && n in place && TakenForPool(place[n], maxSize)
    }

    /** set would take a node off the free list that is not of the pool. */
    predicate Loses(k: Key) {
      k !in at && free != [] && NodeOf(free[0]) >= maxSize
    }

    /** del would give such a node to the free list. */
    predicate Gains(k: Key) {
      k in at && Stray(at[k])
    }

    /** Nodes of the pool in the map, and nodes on the free list. */
    function Total(): nat {
      |OfPool(live.Keys, maxSize)| + |free|
    }

    predicate Ok() {
      && maxSize < 0x8000_0000 && Inverse(live, at) && LinksOk(order, live) && live.Keys <= place.Keys
      && FreeNodes(free, live, place.Keys) && PoolInPlace(place, maxSize)
      && Distinct(FreeHead, free) && Distinct(LinkHead, order)
    }

    /** set: the key's node stays; otherwise one comes off the free list, or from the allocator. */
    function AfterSet(k: Key, newNode: nat, where: int): Pool {
      if k in at then this
      else if free == [] then
        Pool(maxSize, live[newNode := k], at[k := newNode], place[newNode := where], [], [Link(newNode)] + order)
      else
        var n := NodeOf(free[0]);
        Pool(maxSize, live[n := k], at[k := n], place, free[1..], [Link(n)] + order)
    }

    /** A node leaves the map: to the front of the free list, or to the allocator. */
    function Gone(n: nat): Pool {
      var at' := if n in live then at - {live[n]} else at;
      if n in place && TakenForPool(place[n], maxSize) then
        Pool(maxSize, live - {n}, at', place, [Link(n)] + free, Dropped(order, Link(n)))
      else Pool(maxSize, live - {n}, at', place - {n}, free, Dropped(order, Link(n)))
    }

    function AfterDel(k: Key): Pool {
      if k in at then Gone(at[k]) else this
    }

    /** clean: the nodes leave in the order of the link list. */
    function AfterClean(): Pool
      decreases |order|
    {
      if order == [] || !order[0].Link? then this else Gone(order[0].node).AfterClean()
    }
  }

  lemma {:induction false} DroppedMembers(h: Ptr, s: seq<Ptr>, x: Ptr)
    requires Distinct(h, s)
    ensures Distinct(h, Dropped(s, x)) && forall y :: y in Dropped(s, x) <==> y in s && y != x
  {
    if s != [] {
      PopDistinct(h, s);
      if s[0] != x {
        DroppedMembers(h, s[1..], x);
        PushDistinct(h, Dropped(s[1..], x), s[0]);
      }
    }
  }

  lemma {:induction false} DroppedIs(h: Ptr, s: seq<Ptr>, i: nat)
    requires Distinct(h, s) && i < |s|
    ensures Dropped(s, s[i]) == Removed(s, i)
  {
    if i > 0 {
      DroppedIs(h, s[1..], i - 1);
      assert Removed(s, i) == [s[0]] + Removed(s[1..], i - 1);
    }
  }

  // ---------- one call ----------

  lemma InverseInsert(live: map<nat, Key>, at: map<Key, nat>, n: nat, k: Key)
    requires Inverse(live, at) && n !in live && k !in at
    ensures Inverse(live[n := k], at[k := n])
  {
  }

  lemma InverseRemove(live: map<nat, Key>, at: map<Key, nat>, k: Key)
    requires Inverse(live, at) && k in at
    ensures Inverse(live - {at[k]}, at - {k})
  {
  }

  lemma LinksInsert(ring: seq<Ptr>, live: map<nat, Key>, n: nat, k: Key)
    requires LinksOk(ring, live)
    ensures LinksOk([Link(n)] + ring, live[n := k])
  {
  }

  lemma LinksRemove(ring: seq<Ptr>, live: map<nat, Key>, i: nat)
    requires LinksOk(ring, live) && Distinct(LinkHead, ring) && i < |ring|
    ensures ring[i].Link? && LinksOk(Removed(ring, i), live - {ring[i].node})
  {
    hide Removed;
    RemovedMembers(LinkHead, ring, i);
  }

  lemma LinksDrop(ring: seq<Ptr>, live: map<nat, Key>, n: nat)
    requires LinksOk(ring, live) && Distinct(LinkHead, ring) && n in live
    ensures LinksOk(Dropped(ring, Link(n)), live - {n}) && Distinct(LinkHead, Dropped(ring, Link(n)))
    ensures |Dropped(ring, Link(n))| == |ring| - 1
  {
    hide Distinct;
    DroppedMembers(LinkHead, ring, Link(n));
  }

  lemma PushDistinct(h: Ptr, s: seq<Ptr>, x: Ptr)
    requires Distinct(h, s) && x != h && x !in s
    ensures Distinct(h, [x] + s)
  {
  }

  lemma PopDistinct(h: Ptr, s: seq<Ptr>)
    requires Distinct(h, s) && s != []
    ensures Distinct(h, s[1..]) && s[0] !in s[1..]
  {
  }

  /** A new node enters the map. */
  lemma EnterOk(b: Pool, k: Key, n: nat, place: map<nat, int>, free: seq<Ptr>)
    requires b.Ok() && k !in b.at && n !in b.live && n in place && PoolInPlace(place, b.maxSize)
    requires b.place.Keys <= place.Keys && Distinct(FreeHead, free) && Link(n) !in free
    requires forall x :: x in free ==> x in b.free
    ensures Pool(b.maxSize, b.live[n := k], b.at[k := n], place, free, [Link(n)] + b.order).Ok()
  {
    hide Distinct, Inverse, LinksOk, PoolInPlace;
    assert Link(n) !in b.order by { NotLinked(b.order, b.live, n); }
    InverseInsert(b.live, b.at, n, k);
    LinksInsert(b.order, b.live, n, k);
    PushDistinct(LinkHead, b.order, Link(n));
  }

  lemma NotLinked(ring: seq<Ptr>, live: map<nat, Key>, n: nat)
    requires LinksOk(ring, live) && n !in live
    ensures Link(n) !in ring
  {
  }

  lemma SetOk(b: Pool, k: Key, newNode: nat, where: int)
    requires b.Ok() && newNode !in b.place && newNode >= b.maxSize
    ensures b.AfterSet(k, newNode, where).Ok()
  {
    hide Distinct, Inverse, LinksOk;
    if k !in b.at {
      if b.free == [] {
        EnterOk(b, k, newNode, b.place[newNode := where], []);
      } else {
        assert b.free[0] in b.free;
        PopDistinct(FreeHead, b.free);
        EnterOk(b, k, NodeOf(b.free[0]), b.place, b.free[1..]);
      }
    }
  }

  lemma GoneOk(b: Pool, n: nat)
    requires b.Ok() && n in b.live
    ensures b.Gone(n).Ok() && b.Gone(n).live == b.live - {n} && |b.Gone(n).order| == |b.order| - 1
    ensures b.Gone(n).maxSize == b.maxSize
  {
    hide TakenForPool, Distinct, LinksOk;
    LinksDrop(b.order, b.live, n);
    InverseRemove(b.live, b.at, b.live[n]);
    PoolTest(b.place[n], b.maxSize);
    assert Link(n) !in b.free;
    if TakenForPool(b.place[n], b.maxSize) { PushDistinct(FreeHead, b.free, Link(n)); }
  }

  lemma Enters(live: map<nat, Key>, n: nat, k: Key, maxSize: nat)
    requires n !in live
    ensures |OfPool(live[n := k].Keys, maxSize)| == |OfPool(live.Keys, maxSize)| + if n < maxSize then 1 else 0
  {
    var was, now := OfPool(live.Keys, maxSize), OfPool(live[n := k].Keys, maxSize);
    assert now == if n < maxSize then was + {n} else was;
  }

  lemma Leaves(live: map<nat, Key>, n: nat, maxSize: nat)
    requires n in live
    ensures |OfPool((live - {n}).Keys, maxSize)| == |OfPool(live.Keys, maxSize)| - if n < maxSize then 1 else 0
  {
    var was, now := OfPool(live.Keys, maxSize), OfPool((live - {n}).Keys, maxSize);
    assert now == was - {n};
  }

  /** set loses a node exactly when the one it takes off the free list is not of the pool. */
  lemma SetTotal(b: Pool, k: Key, newNode: nat, where: int)
    requires b.Ok() && newNode !in b.place && newNode >= b.maxSize
    ensures b.AfterSet(k, newNode, where).Total() ==
      b.Total() - if b.Loses(k) then 1 else 0
  {
    if k !in b.at {
      Enters(b.live, if b.free == [] then newNode else NodeOf(b.free[0]), k, b.maxSize);
    }
  }

  lemma GoneTotal(b: Pool, n: nat)
    requires b.Ok() && n in b.live
    ensures b.Gone(n).Total() == b.Total() + if b.Stray(n) then 1 else 0
  {
    hide TakenForPool;
    Leaves(b.live, n, b.maxSize);
    PoolTest(b.place[n], b.maxSize);
  }

  /** del gains a node exactly when the key's node is not of the pool and passes the pool test. */
  lemma DelTotal(b: Pool, k: Key)
    requires b.Ok()
    ensures b.AfterDel(k).Total() == b.Total() + if b.Gains(k) then 1 else 0
  {
    hide Pool.Total, Pool.Gone, TakenForPool;
    if k in b.at { GoneTotal(b, b.at[k]); }
  }

  function Strays(b: Pool): set<nat> {
    set n | n in b.live && b.Stray(n)
  }

  /** clean empties the map and gains one node for each such node in it. */
  lemma {:induction false} CleanTotal(b: Pool)
    requires b.Ok()
    ensures b.AfterClean().Total() == b.Total() + |Strays(b)|
    ensures b.AfterClean().Ok() && b.AfterClean().at == map[] && b.AfterClean().maxSize == b.maxSize
    decreases |b.order|
  {
    hide Pool.Total, TakenForPool, Pool.Ok, Pool.Gone, Pool.Stray, Strays;
    if b.order == [] {
      NothingThere(b);
    } else {
      FirstThere(b);
      var n := b.order[0].node;
      GoneOk(b, n);
      GoneTotal(b, n);
      CleanTotal(b.Gone(n));
      StraysLeave(b, n);
    }
  }

  lemma NothingThere(b: Pool)
    requires b.Ok() && b.order == []
    ensures b.live == map[] && b.at == map[] && Strays(b) == {}
  {
    hide Distinct, TakenForPool;
  }

  lemma FirstThere(b: Pool)
    requires b.Ok() && b.order != []
    ensures b.order[0].Link? && b.order[0].node in b.live
  {
    assert b.order[0] in b.order;
  }

  lemma StraysLeave(b: Pool, n: nat)
    requires b.Ok() && n in b.live
    ensures |Strays(b)| == |Strays(b.Gone(n))| + if b.Stray(n) then 1 else 0
  {
    hide Distinct, TakenForPool, Inverse, LinksOk;
    assert Strays(b.Gone(n)) == Strays(b) - {n};
  }

  // ---------- any run ----------

  /** A call, with the node that the allocator would give and its distance from the pool. */
  datatype Op = SetOp(k: Key, v: Key, newNode: nat, where: int) | DelOp(k: Key) | CleanOp

  function Apply(b: Pool, op: Op): Pool {
    match op
    case SetOp(k, _, newNode, where) => b.AfterSet(k, newNode, where)
    case DelOp(k) => b.AfterDel(k)
    case CleanOp => b.AfterClean()
  }

  function After(b: Pool, ops: seq<Op>): Pool {
    if ops == [] then b else Apply(After(b, ops[..|ops| - 1]), ops[|ops| - 1])
  }

  /** A new node is outside the pool and not in memory already. */
  predicate Allocates(b: Pool, op: Op) {
    op.SetOp? ==> op.newNode !in b.place && op.newNode >= b.maxSize && !(0 <= op.where < b.maxSize)
  }

  predicate Runs(b: Pool, ops: seq<Op>) {
    ops != [] ==> Runs(b, ops[..|ops| - 1]) && Allocates(After(b, ops[..|ops| - 1]), ops[|ops| - 1])
  }

  /** After init: every node of the pool is free. */
  function Fresh(maxSize: nat): Pool {
    Pool(maxSize, map[], map[], map n | n in Below(maxSize) :: n as int, seq(maxSize, i requires i >= 0 => Link(i)), [])
  }

  lemma FreshOk(maxSize: nat)
    requires maxSize < 0x8000_0000
    ensures Fresh(maxSize).Ok() && Fresh(maxSize).Total() == maxSize
  {
    assert OfPool({}, maxSize) == {};
  }

  /** No node outside the pool passes the test, and none is on the free list. */
  predicate Honest(b: Pool) {
    (forall n :: n in b.place ==> !b.Stray(n)) && forall x :: x in b.free ==> NodeOf(x) < b.maxSize
  }

  lemma GoneHonest(b: Pool, n: nat)
    requires b.Ok() && Honest(b) && n in b.live
    ensures Honest(b.Gone(n))
  {
  }

  lemma {:induction false} CleanHonest(b: Pool)
    requires b.Ok() && Honest(b)
    ensures Honest(b.AfterClean())
    decreases |b.order|
  {
    hide Honest, Pool.Ok, Pool.Gone;
    if b.order != [] {
      FirstThere(b);
      GoneOk(b, b.order[0].node);
      GoneHonest(b, b.order[0].node);
      CleanHonest(b.Gone(b.order[0].node));
    }
  }

  lemma ApplyOk(b: Pool, op: Op)
    requires b.Ok() && Allocates(b, op)
    ensures Apply(b, op).Ok() && Apply(b, op).maxSize == b.maxSize
  {
    hide Pool.Ok, TakenForPool;
    match op
    case SetOp(k, _, newNode, where) => SetOk(b, k, newNode, where);
    case DelOp(k) => if k in b.at { InMap(b, k); GoneOk(b, b.at[k]); }
    case CleanOp => CleanTotal(b);
  }

  lemma InMap(b: Pool, k: Key)
    requires b.Ok() && k in b.at
    ensures b.at[k] in b.live
  {
  }

  lemma SetHonest(b: Pool, k: Key, newNode: nat, where: int)
    requires b.Ok() && Honest(b) && !TakenForPool(where, b.maxSize)
    ensures Honest(b.AfterSet(k, newNode, where))
  {
    hide TakenForPool;
  }

  lemma ApplyHonest(b: Pool, op: Op)
    requires b.Ok() && Honest(b) && Allocates(b, op) && (op.SetOp? ==> !TakenForPool(op.where, b.maxSize))
    ensures Honest(Apply(b, op)) && Apply(b, op).Total() == b.Total()
  {
    hide Pool.Ok, TakenForPool, Pool.Total, Pool.AfterSet, Pool.AfterDel, Pool.AfterClean;
    match op
    case SetOp(k, _, newNode, where) =>
      SetTotal(b, k, newNode, where);
      SetHonest(b, k, newNode, where);
    case DelOp(k) =>
      DelTotal(b, k);
      DelHonest(b, k);
    case CleanOp =>
      CleanTotal(b);
      CleanHonest(b);
      NoStrays(b);
  }

  lemma DelHonest(b: Pool, k: Key)
    requires b.Ok() && Honest(b)
    ensures Honest(b.AfterDel(k))
    ensures k in b.at ==> !b.Stray(b.at[k])
  {
    hide Pool.Gone, TakenForPool;
    if k in b.at { GoneHonest(b, b.at[k]); }
  }

  lemma NoStrays(b: Pool)
    requires b.Ok() && Honest(b)
    ensures Strays(b) == {}
  {
  }

  /** While no node from the allocator passes the pool test, the total stays what it was. */
  lemma {:induction false} RunKeepsTotal(maxSize: nat, ops: seq<Op>)
    requires maxSize < 0x8000_0000 && Runs(Fresh(maxSize), ops)
    requires forall op :: op in ops && op.SetOp? && !(0 <= op.where < maxSize) ==> !TakenForPool(op.where, maxSize)
    ensures var b := After(Fresh(maxSize), ops);
      b.Ok() && b.maxSize == maxSize && Honest(b) && b.Total() == maxSize
  {
    hide Pool.Ok, TakenForPool, Pool.Total, Honest, Apply;
    if ops == [] {
      FreshOk(maxSize);
      FreshHonest(maxSize);
    } else {
      var b := After(Fresh(maxSize), ops[..|ops| - 1]);
      RunKeepsTotal(maxSize, ops[..|ops| - 1]);
      ApplyOk(b, ops[|ops| - 1]);
      ApplyHonest(b, ops[|ops| - 1]);
    }
  }

  lemma FreshHonest(maxSize: nat)
    ensures Honest(Fresh(maxSize))
  {
  }

  // ---------- a run that gains a node ----------

  /** Keys 0 to n - 1 are set, with one node on offer. */
  function Fill(n: nat, newNode: nat, where: int): (ops: seq<Op>)
    requires n <= 0x8000_0000
    ensures |ops| == n && forall op :: op in ops ==> op.SetOp? && op.where == where
  {
    if n == 0 then [] else Fill(n - 1, newNode, where) + [SetOp(n - 1, 0, newNode, where)]
  }

  lemma OneMoreOp(b: Pool, ops: seq<Op>, op: Op)
    ensures After(b, ops + [op]) == Apply(After(b, ops), op)
    ensures Runs(b, ops + [op]) <==> Runs(b, ops) && Allocates(After(b, ops), op)
  {
    hide Apply, Allocates;
    assert (ops + [op])[..|ops|] == ops;
  }

  /** A run can be cut short anywhere. */
  lemma {:induction false} RunsPrefix(b: Pool, ops: seq<Op>, i: nat)
    requires Runs(b, ops) && i < |ops|
    ensures Runs(b, ops[..i + 1]) && After(b, ops[..i + 1]) == Apply(After(b, ops[..i]), ops[i])
    ensures Allocates(After(b, ops[..i]), ops[i])
    decreases |ops|
  {
    hide Apply, Allocates;
    var init := ops[..|ops| - 1];
    if i < |ops| - 1 {
      RunsPrefix(b, init, i);
      assert init[..i + 1] == ops[..i + 1] && init[..i] == ops[..i];
    } else {
      assert ops[..i + 1] == ops;
    }
  }

  predicate FilledTo(b: Pool, maxSize: nat, n: nat) {
    && b.Ok() && b.maxSize == maxSize && b.place == Fresh(maxSize).place && b.Total() == maxSize
    && n <= maxSize == n + |b.free| && forall k: Key :: k in b.at <==> k < n
  }

  lemma NotFilled(maxSize: nat)
    requires maxSize < 0x8000_0000
    ensures FilledTo(Fresh(maxSize), maxSize, 0)
  {
    hide Pool.Ok, Pool.Total;
    FreshOk(maxSize);
  }

  lemma FillOne(b: Pool, maxSize: nat, n: nat, where: int)
    requires FilledTo(b, maxSize, n) && n < maxSize
    ensures maxSize !in b.place && FilledTo(b.AfterSet(n, maxSize, where), maxSize, n + 1)
  {
    hide Pool.Total, Distinct, Inverse, LinksOk;
    assert b.free[0] in b.free;
    SetOk(b, n, maxSize, where);
    SetTotal(b, n, maxSize, where);
  }

  /** While the pool lasts they take its nodes. */
  lemma {:induction false} Filled(maxSize: nat, n: nat, where: int)
    requires n <= maxSize < 0x8000_0000 && !(0 <= where < maxSize)
    ensures Runs(Fresh(maxSize), Fill(n, maxSize, where))
    ensures FilledTo(After(Fresh(maxSize), Fill(n, maxSize, where)), maxSize, n)
  {
    hide Fresh, FilledTo;
    if n == 0 {
      NotFilled(maxSize);
    } else {
      var fill := Fill(n - 1, maxSize, where);
      Filled(maxSize, n - 1, where);
      OneMoreOp(Fresh(maxSize), fill, SetOp(n - 1, 0, maxSize, where));
      FillOne(After(Fresh(maxSize), fill), maxSize, n - 1, where);
      FilledMeans(After(Fresh(maxSize), fill), maxSize, n - 1);
    }
  }

  lemma FilledMeans(b: Pool, maxSize: nat, n: nat)
    requires FilledTo(b, maxSize, n)
    ensures b.maxSize == maxSize && maxSize !in b.place
  {
    hide Pool.Ok, Pool.Total;
  }

  function Passing(maxSize: nat, where: int): seq<Op>
    requires maxSize < 0x8000_0000
  {
    Fill(maxSize + 1, maxSize, where) + [DelOp(maxSize)]
  }

  /** Setting one more key than the pool has nodes, and deleting it. */
  lemma OverAndBack(b: Pool, maxSize: nat, where: int)
    requires FilledTo(b, maxSize, maxSize) && TakenForPool(where, maxSize)
    ensures b.AfterSet(maxSize, maxSize, where).AfterDel(maxSize).Total() == maxSize + 1
  {
    hide Pool.Total, TakenForPool, Distinct, Inverse, LinksOk;
    SetOk(b, maxSize, maxSize, where);
    SetTotal(b, maxSize, maxSize, where);
    DelTotal(b.AfterSet(maxSize, maxSize, where), maxSize);
  }

  /** One more key than the pool has nodes, and its node passes the test when it is deleted: then
      the free list and the map have a node too many. */
  lemma PassingGains(maxSize: nat, where: int)
    requires maxSize < 0x8000_0000 && !(0 <= where < maxSize) && TakenForPool(where, maxSize)
    ensures Runs(Fresh(maxSize), Passing(maxSize, where))
    ensures After(Fresh(maxSize), Passing(maxSize, where)).Total() == maxSize + 1
  {
    hide Pool.Total, TakenForPool, Fresh, FilledTo;
    Filled(maxSize, maxSize, where);
    var fill := Fill(maxSize, maxSize, where);
    var b := After(Fresh(maxSize), fill);
    FilledMeans(b, maxSize, maxSize);
    OneMoreOp(Fresh(maxSize), fill, SetOp(maxSize, 0, maxSize, where));
    OneMoreOp(Fresh(maxSize), fill + [SetOp(maxSize, 0, maxSize, where)], DelOp(maxSize));
    OverAndBack(b, maxSize, where);
  }

  predicate Uses(ops: seq<Op>, places: iset<int>) {
    forall op :: op in ops && op.SetOp? ==> op.where in places
  }

  /** Whatever the calls, the total stays max_size when the allocator's nodes lie at some places if
      and only if none of these places outside the pool passes the test. */
  lemma TotalKept(maxSize: nat, places: iset<int>)
    requires maxSize < 0x8000_0000
    ensures (forall ops :: Runs(Fresh(maxSize), ops) && Uses(ops, places) ==>
               After(Fresh(maxSize), ops).Total() == maxSize)
      <==> forall where :: where in places && !(0 <= where < maxSize) ==> !TakenForPool(where, maxSize)
  {
    hide Pool.Total, TakenForPool, Fresh, After;
    if where :| where in places && !(0 <= where < maxSize) && TakenForPool(where, maxSize) {
      PassingGains(maxSize, where);
      assert Uses(Passing(maxSize, where), places);
    } else {
      forall ops | Runs(Fresh(maxSize), ops) && Uses(ops, places)
        ensures After(Fresh(maxSize), ops).Total() == maxSize
      {
        RunKeepsTotal(maxSize, ops);
      }
    }
  }
}
