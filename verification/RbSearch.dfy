/** Key order in the tree: what a descent from the root knows about the keys beside
    its path. */
module RbSearch {
  import opened CString
  import opened RbShape
  import RbSplice

  type Keys = map<Ptr, CStr>

  /** In strictly ascending key order. */
  ghost predicate Sorted(s: seq<Ptr>, key: Keys) {
    && (forall n :: n in s ==> n in key)
    && forall i, j :: 0 <= i < j < |s| ==> Less(key[s[i]], key[s[j]])
  }

  ghost predicate AllBelow(s: seq<Ptr>, k: CStr, key: Keys) {
    forall n :: n in s ==> n in key && Less(key[n], k)
  }

  ghost predicate AllAbove(s: seq<Ptr>, k: CStr, key: Keys) {
    forall n :: n in s ==> n in key && Less(k, key[n])
  }

  ghost predicate HasKey(s: seq<Ptr>, k: CStr, key: Keys) {
    exists n :: n in s && n in key && key[n] == k
  }

  /** Around any record of a sorted sequence the keys lie on their sides. */
  lemma SortedSplit(a: seq<Ptr>, n: Ptr, b: seq<Ptr>, key: Keys)
    requires Sorted(a + [n] + b, key)
    ensures n in key && AllBelow(a, key[n], key) && AllAbove(b, key[n], key)
    ensures Sorted(a, key) && Sorted(b, key) && Sorted(a + b, key)
  {
    SortedWithout(a, n, b, key);
    hide Less;
    var s := a + [n] + b;
    assert s[|a|] == n;
    assert forall i :: 0 <= i < |a| ==> s[i] == a[i];
    assert forall i :: 0 <= i < |b| ==> s[|a| + 1 + i] == b[i];
  }

  lemma SortedWithout(a: seq<Ptr>, n: Ptr, b: seq<Ptr>, key: Keys)
    requires Sorted(a + [n] + b, key)
    ensures Sorted(a + b, key)
  {
    hide Less;
    var s, u := a + [n] + b, a + b;
    assert forall x :: x in u ==> x in s;
    assert forall i :: 0 <= i < |u| ==> u[i] == s[if i < |a| then i else i + 1];
  }

  lemma SortedJoin(a: seq<Ptr>, n: Ptr, b: seq<Ptr>, key: Keys)
    requires Sorted(a + b, key) && n in key && AllBelow(a, key[n], key) && AllAbove(b, key[n], key)
    ensures Sorted(a + [n] + b, key)
  {
    var s, u := a + [n] + b, a + b;
    assert forall x :: x in s ==> x in u || x == n;
    forall i, j | 0 <= i < j < |s|
      ensures Less(key[s[i]], key[s[j]])
    {
      if i != |a| && j != |a| {
        assert s[i] == u[if i < |a| then i else i - 1] && s[j] == u[if j < |a| then j else j - 1];
      }
    }
  }

  /** Keys on the wrong side of n cannot hold k. */
  lemma Chain(s: seq<Ptr>, n: Ptr, k: CStr, key: Keys)
    requires n in key
    ensures Less(key[n], k) && AllBelow(s, key[n], key) ==> AllBelow(s, k, key)
    ensures Less(k, key[n]) && AllAbove(s, key[n], key) ==> AllAbove(s, k, key)
  {
    LessIsTotalOrder();
  }

  /** The records off the path are on their sides of k. */
  ghost predicate OnPath(p: Path, k: CStr, key: Keys) {
    AllBelow(Before(p), k, key) && AllAbove(After(p), k, key)
  }

  lemma TopPath(t: Tree, k: CStr, key: Keys)
    ensures Plug(Top, t) == t && OnPath(Top, k, key)
  {
  }

  /** The records before and after the one in focus are on their sides of its key. */
  lemma Sides(p: Path, t: Tree, key: Keys)
    requires t.Br? && Sorted(InOrder(Plug(p, t)), key)
    ensures t.node in key && AllBelow(Before(p) + InOrder(t.left), key[t.node], key)
    ensures AllAbove(InOrder(t.right) + After(p), key[t.node], key)
  {
    hide Sorted, AllBelow, AllAbove, Plug, Before, After;
    PlugInOrder(p, t);
    var a, b := Before(p) + InOrder(t.left), InOrder(t.right) + After(p);
    assert InOrder(Plug(p, t)) == a + [t.node] + b;
    SortedSplit(a, t.node, b, key);
  }

  lemma DescendLeft(p: Path, t: Tree, k: CStr, key: Keys)
    requires t.Br? && t.node in key && Less(k, key[t.node]) && OnPath(p, k, key)
    requires AllAbove(InOrder(t.right) + After(p), key[t.node], key)
    ensures OnPath(GoLeft(p, t), k, key)
  {
    hide Less, InOrder;
    Chain(InOrder(t.right) + After(p), t.node, k, key);
    assert After(GoLeft(p, t)) == [t.node] + (InOrder(t.right) + After(p));
  }

  lemma DescendRight(p: Path, t: Tree, k: CStr, key: Keys)
    requires t.Br? && t.node in key && Less(key[t.node], k) && OnPath(p, k, key)
    requires AllBelow(Before(p) + InOrder(t.left), key[t.node], key)
    ensures OnPath(GoRight(p, t), k, key)
  {
    hide Less, InOrder;
    Chain(Before(p) + InOrder(t.left), t.node, k, key);
    assert Before(GoRight(p, t)) == Before(p) + InOrder(t.left) + [t.node];
  }

  /** One step of the descent, either way. */
  lemma Descend(p: Path, t: Tree, k: CStr, key: Keys)
    requires t.Br? && Sorted(InOrder(Plug(p, t)), key) && OnPath(p, k, key)
    ensures t.node in key
    ensures Strcmp(k, key[t.node]) < 0 ==> OnPath(GoLeft(p, t), k, key)
    ensures Strcmp(k, key[t.node]) > 0 ==> OnPath(GoRight(p, t), k, key)
    ensures Strcmp(k, key[t.node]) == 0 ==> key[t.node] == k
  {
    hide Sorted, AllBelow, AllAbove, Plug, Before, After, InOrder, OnPath, Strcmp;
    Sides(p, t, key);
    StrcmpZero(k, key[t.node]);
    StrcmpAntisymmetric(k, key[t.node]);
    if Strcmp(k, key[t.node]) < 0 { DescendLeft(p, t, k, key); }
    if Strcmp(k, key[t.node]) > 0 { DescendRight(p, t, k, key); }
  }

  /** When the descent ends at an empty place, k is absent. */
  lemma DescentEnds(p: Path, k: CStr, key: Keys)
    requires Sorted(InOrder(Plug(p, Leaf)), key) && OnPath(p, k, key)
    ensures !HasKey(InOrder(Plug(p, Leaf)), k, key)
    ensures InOrder(Plug(p, Leaf)) == Before(p) + After(p)
  {
    LessIsTotalOrder();
    PlugInOrder(p, Leaf);
    assert Before(p) + InOrder(Leaf) + After(p) == Before(p) + After(p);
  }

  /** And a record with that key belongs there. */
  lemma BelongsThere(p: Path, elm: Ptr, c: Color, key: Keys)
    requires elm in key && Sorted(InOrder(Plug(p, Leaf)), key) && OnPath(p, key[elm], key)
    ensures var t := Br(Leaf, elm, c, Leaf);
      InOrder(Plug(p, t)) == Before(p) + [elm] + After(p) && Sorted(InOrder(Plug(p, t)), key)
  {
    hide Sorted, AllBelow, AllAbove;
    DescentEnds(p, key[elm], key);
    PlugInOrder(p, Br(Leaf, elm, c, Leaf));
    assert InOrder(Br(Leaf, elm, c, Leaf)) == [elm];
    SortedJoin(Before(p), elm, After(p), key);
  }

  /** The first record not below k, or NULL. */
  ghost predicate IsFirstNotBelow(s: seq<Ptr>, k: CStr, key: Keys, n: Ptr) {
    if n == NULL then AllBelow(s, k, key)
    else exists i :: 0 <= i < |s| && s[i] == n && n in key && !Less(key[n], k) && AllBelow(s[..i], k, key)
  }

  lemma FoundIsFirst(p: Path, t: Tree, k: CStr, key: Keys)
    requires t.Br? && Sorted(InOrder(Plug(p, t)), key) && t.node in key && key[t.node] == k && t.node != NULL
    ensures IsFirstNotBelow(InOrder(Plug(p, t)), k, key, t.node)
  {
    LessIsTotalOrder();
    PlugInOrder(p, t);
    var a, b := Before(p) + InOrder(t.left), InOrder(t.right) + After(p);
    var s := InOrder(Plug(p, t));
    assert s == a + [t.node] + b;
    SortedSplit(a, t.node, b, key);
    assert s[..|a|] == a && s[|a|] == t.node;
  }

  lemma AfterIsFirst(p: Path, k: CStr, key: Keys)
    requires OnPath(p, k, key) && NULL !in InOrder(Plug(p, Leaf))
    ensures IsFirstNotBelow(InOrder(Plug(p, Leaf)), k, key, if After(p) == [] then NULL else After(p)[0])
  {
    LessIsTotalOrder();
    PlugInOrder(p, Leaf);
    var a, b, s := Before(p), After(p), InOrder(Plug(p, Leaf));
    assert s == a + b;
    if b != [] {
      assert s[..|a|] == a && s[|a|] == b[0];
    }
  }

  /** The new red leaf is a fit for the insertion fix-up. */
  lemma AttachedOk(p: Path, elm: Ptr, tree: Tree)
    requires Plug(p, Leaf) == tree && Ok(tree, BlackHeight(tree)) && !IsRed(tree)
    ensures PathOk(p, 0) && Ok(Br(Leaf, elm, Red, Leaf), 0)
  {
    UnplugOk(p, Leaf, BlackHeight(tree));
  }

  lemma SortedErases(s: seq<Ptr>, n: Ptr, s': seq<Ptr>, key: Keys)
    requires Sorted(s, key) && RbSplice.Erases(s, n, s')
    ensures Sorted(s', key)
  {
    var i :| RbSplice.ErasesAt(s, n, s', i);
    assert s == s[..i] + [n] + s[i + 1..];
    SortedSplit(s[..i], n, s[i + 1..], key);
  }
}
