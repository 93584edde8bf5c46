/** Neighbours in key order, and the height bound. */
module RbWalk {
  import opened CString
  import opened RbShape
  import opened RbSearch
  import opened Powers

  ghost function FirstOf(s: seq<Ptr>): Ptr {
    if s == [] then NULL else s[0]
  }

  ghost function LastOf(s: seq<Ptr>): Ptr {
    if s == [] then NULL else s[|s| - 1]
  }

  /** r follows n in s, and is NULL when n is the last. */
  ghost predicate Follows(s: seq<Ptr>, n: Ptr, r: Ptr) {
    forall i {:trigger s[i]} :: 0 <= i < |s| && s[i] == n ==> r == if i + 1 < |s| then s[i + 1] else NULL
  }

  /** r precedes n in s, and is NULL when n is the first. */
  ghost predicate Precedes(s: seq<Ptr>, n: Ptr, r: Ptr) {
    forall i {:trigger s[i]} :: 0 <= i < |s| && s[i] == n ==> r == if i > 0 then s[i - 1] else NULL
  }

  lemma SortedDistinct(s: seq<Ptr>, key: Keys)
    requires Sorted(s, key)
    ensures forall i, j :: 0 <= i < j < |s| ==> s[i] != s[j]
  {
    LessIsTotalOrder();
  }

  lemma Neighbours(a: seq<Ptr>, n: Ptr, b: seq<Ptr>, s: seq<Ptr>, key: Keys)
    requires s == a + [n] + b && Sorted(s, key)
    ensures Follows(s, n, FirstOf(b)) && Precedes(s, n, LastOf(a))
  {
    SortedDistinct(s, key);
    assert s[|a|] == n;
    forall i | 0 <= i < |s| && s[i] == n
      ensures i == |a|
    {
    }
  }

  /** RB_NEXT and RB_PREV undo each other. */
  lemma NextThenPrev(s: seq<Ptr>, n: Ptr, m: Ptr, key: Keys)
    requires Sorted(s, key) && NULL !in s && n in s && m in s
    ensures Follows(s, n, m) <==> Precedes(s, m, n)
  {
    SortedDistinct(s, key);
    var i: nat :| i < |s| && s[i] == n;
    var j: nat :| j < |s| && s[j] == m;
    assert Follows(s, n, m) <==> j == i + 1 by {
      if Follows(s, n, m) && i + 1 < |s| { assert s[i + 1] == m; }
    }
    assert Precedes(s, m, n) <==> j == i + 1 by {
      if Precedes(s, m, n) && j > 0 { assert s[j - 1] == n; }
    }
  }

  /** The records from the focus on, in order, while going left; the records up to it
      while going right. */
  lemma WalkDown(p: Path, u: Tree)
    requires u.Br?
    ensures InOrder(u.left) + After(GoLeft(p, u)) == InOrder(u) + After(p)
    ensures u.left.Leaf? ==> FirstOf(InOrder(u) + After(p)) == u.node
    ensures Before(GoRight(p, u)) + InOrder(u.right) == Before(p) + InOrder(u)
    ensures u.right.Leaf? ==> LastOf(Before(p) + InOrder(u)) == u.node
  {
  }

  /** What follows and what precedes the focused record. */
  lemma Neighbourhood(p: Path, t: Tree, tree: Tree, key: Keys)
    requires t.Br? && Plug(p, t) == tree && Sorted(InOrder(tree), key)
    ensures Follows(InOrder(tree), t.node, FirstOf(InOrder(t.right) + After(p)))
    ensures Precedes(InOrder(tree), t.node, LastOf(Before(p) + InOrder(t.left)))
    ensures After(GoRight(p, t)) == After(p) && Before(GoLeft(p, t)) == Before(p)
    ensures t.right.Leaf? ==> InOrder(t.right) + After(p) == After(p)
    ensures t.left.Leaf? ==> Before(p) + InOrder(t.left) == Before(p)
  {
    PlugInOrder(p, t);
    Neighbours(Before(p) + InOrder(t.left), t.node, InOrder(t.right) + After(p), InOrder(tree), key);
  }

  /** What follows and what precedes a subtree, read off the last step of its path. */
  lemma WalkUp(p: Path)
    ensures p.Top? ==> After(p) == [] && Before(p) == []
    ensures p.In? && p.side == Left ==> FirstOf(After(p)) == p.node && Before(p) == Before(p.up)
    ensures p.In? && p.side == Right ==> LastOf(Before(p)) == p.node && After(p) == After(p.up)
  {
  }

  lemma NoneOf()
    ensures FirstOf([]) == NULL && LastOf([]) == NULL
  {
  }

  lemma Ends(t: Tree)
    ensures InOrder(t) + After(Top) == InOrder(t) && Before(Top) + InOrder(t) == InOrder(t)
  {
  }

  lemma AtEnd(p: Path, t: Tree)
    requires t.Leaf?
    ensures InOrder(t) + After(p) == After(p) && Before(p) + InOrder(t) == Before(p)
  {
  }

  /** What the upward loop reads. */
  lemma Ascend(s: Store, p: Path, t: Tree, root: Ptr)
    requires At(s, p, t, root) && t.Br?
    ensures t.node in s && s[t.node].parent == Holder(p) && (Holder(p) == NULL <==> p.Top?)
    ensures p.In? ==>
      && p.node in s
      && (s[p.node].left == t.node <==> p.side == Left) && (s[p.node].right == t.node <==> p.side == Right)
      && At(s, p.up, Join(p.side, t, p.node, p.color, p.sib), root)
      && Join(p.side, t, p.node, p.color, p.sib).Br? && Join(p.side, t, p.node, p.color, p.sib).node == p.node
  {
    if p.In? {
      ReadHolder(s, p, t, root);
      Up(s, p.up, p.side, p.node, p.color, p.sib, t, root);
    }
  }

  /** Erasing the first record leaves the rest. */
  lemma EraseFirst(s: seq<Ptr>, s': seq<Ptr>, key: Keys)
    requires Sorted(s, key) && s != [] && RbSplice.Erases(s, s[0], s')
    ensures s' == s[1..]
  {
    SortedDistinct(s, key);
  }

  // ---------- height ----------

  ghost function Height(t: Tree): nat {
    match t
    case Leaf => 0
    case Br(l, _, _, r) => 1 + if Height(l) > Height(r) then Height(l) else Height(r)
  }

  lemma {:induction false} BlackHeightBounds(t: Tree, h: nat)
    requires Ok(t, h)
    ensures Height(t) <= 2 * h + (if IsRed(t) then 1 else 0)
    ensures Pow2(h) <= |InOrder(t)| + 1
  {
    match t
    case Leaf =>
    case Br(l, _, c, r) =>
      var k := if c == Black then h - 1 else h;
      BlackHeightBounds(l, k);
      BlackHeightBounds(r, k);
  }

  /** The height of a red-black tree of n records is at most 2*log2(n + 1). */
  lemma HeightBound(t: Tree)
    requires Ok(t, BlackHeight(t)) && !IsRed(t)
    ensures Pow2(Height(t)) <= (|InOrder(t)| + 1) * (|InOrder(t)| + 1)
  {
    var h, n := BlackHeight(t), |InOrder(t)| + 1;
    BlackHeightBounds(t, h);
    Pow2Mono(Height(t), 2 * h);
    Pow2Add(h, h);
    assert Pow2(h) * Pow2(h) <= n * n by {
      SquareMono(Pow2(h), n);
    }
  }

  lemma SquareMono(a: nat, b: nat)
    requires a <= b
    ensures a * a <= b * b
  {
    assert a * a <= a * b <= b * b;
  }
}
