/** The first half of RB_REMOVE, on layouts: taking a record with at most one child out
    of its place, and putting the successor in the removed record's place. */
module RbSplice {
  import opened RbShape

  /** s' is s without its i-th record, which is n. */
  ghost predicate ErasesAt(s: seq<Ptr>, n: Ptr, s': seq<Ptr>, i: int) {
    0 <= i < |s| && s[i] == n && s' == s[..i] + s[i + 1..]
  }

  ghost predicate Erases(s: seq<Ptr>, n: Ptr, s': seq<Ptr>) {
    exists i :: ErasesAt(s, n, s', i)
  }

  lemma ErasesSplit(a: seq<Ptr>, n: Ptr, b: seq<Ptr>)
    ensures Erases(a + [n] + b, n, a + b)
  {
    var s := a + [n] + b;
    assert s[..|a|] == a && s[|a| + 1..] == b;
    assert ErasesAt(s, n, a + b, |a|);
  }

  lemma ErasesWithin(a: seq<Ptr>, x: seq<Ptr>, n: Ptr, y: seq<Ptr>, b: seq<Ptr>)
    ensures Erases(a + (x + [n] + y) + b, n, a + (x + y) + b)
  {
    ErasesSplit(a + x, n, y + b);
    assert a + (x + [n] + y) + b == (a + x) + [n] + (y + b);
    assert a + (x + y) + b == (a + x) + (y + b);
  }

  /** The place of a record in a tree. */
  lemma {:induction false} Locate(p: Path, t: Tree, n: Ptr) returns (p': Path, t': Tree)
    requires n in InOrder(t)
    ensures t'.Br? && t'.node == n && Plug(p', t') == Plug(p, t)
    decreases t
  {
    if n == t.node {
      p', t' := p, t;
    } else if n in InOrder(t.left) {
      p', t' := Locate(GoLeft(p, t), t.left, n);
    } else {
      p', t' := Locate(GoRight(p, t), t.right, n);
    }
  }

  // ---------- a record with at most one child ----------

  ghost predicate OnlyChild(l: Tree, r: Tree, child: Tree) {
    (l.Leaf? && child == r) || (r.Leaf? && child == l)
  }

  /** child takes the place of old'. */
  ghost function Spliced(s: Store, parent: Ptr, old': Ptr, child: Ptr): Store
    requires (parent == NULL || parent in s) && (child == NULL || child in s)
  {
    Relinked(Reparented(s, child, parent), parent, old', child)
  }

  lemma SplicedAt(s: Store, p: Path, l: Tree, n: Ptr, c: Color, r: Tree, child: Tree, root: Ptr)
    requires At(s, p, Br(l, n, c, r), root) && OnlyChild(l, r, child)
    ensures (Holder(p) == NULL || Holder(p) in s) && (Root(child) == NULL || Root(child) in s)
    ensures Holder(p) == NULL <==> p.Top?
    ensures var s' := Spliced(s, Holder(p), n, Root(child));
      && At(s', p, child, if p.Top? then Root(child) else root)
      && Only(s, s', Foot(p, Br(l, n, c, r)))
      && n in s && s'[n] == s[n]
  {
    assert Rep(s, l, n) && Rep(s, r, n);
    var s1, s' := Reparented(s, Root(child), Holder(p)), Spliced(s, Holder(p), n, Root(child));
    assert p.In? ==> p.node in PathNodes(p);
    assert child.Br? ==> child.node in Nodes(child);
    ReparentedRep(s, child, n, Holder(p));
    RepFrame(s1, s', child, Holder(p));
    RepPathFrame(s, s1, p, n, root);
    RelinkedPath(s1, p, n, Root(child), root);
  }

  lemma SplicedOrder(p: Path, l: Tree, n: Ptr, c: Color, r: Tree, child: Tree)
    requires OnlyChild(l, r, child)
    ensures Erases(InOrder(Plug(p, Br(l, n, c, r))), n, InOrder(Plug(p, child)))
  {
    PlugInOrder(p, Br(l, n, c, r));
    PlugInOrder(p, child);
    ErasesWithin(Before(p), InOrder(l), n, InOrder(r), After(p));
    assert InOrder(child) == InOrder(l) + InOrder(r);
  }

  // ---------- the successor in place of the removed record ----------

  /** The path a, continued upward by b. */
  ghost function Append(a: Path, b: Path): Path {
    match a
    case Top => b
    case In(up, side, n, c, sib) => In(Append(up, b), side, n, c, sib)
  }

  lemma {:induction false} AppendPlug(a: Path, b: Path, t: Tree)
    ensures Plug(Append(a, b), t) == Plug(b, Plug(a, t))
    decreases a
  {
    if a.In? { AppendPlug(a.up, b, Join(a.side, t, a.node, a.color, a.sib)); }
  }

  lemma {:induction false} AtAppend(s: Store, a: Path, b: Path, t: Tree, root: Ptr)
    ensures At(s, Append(a, b), t, root) <==> At(s, b, Plug(a, t), root)
    decreases a
  {
    if a.In? {
      Up(s, Append(a.up, b), a.side, a.node, a.color, a.sib, t, root);
      AtAppend(s, a.up, b, Join(a.side, t, a.node, a.color, a.sib), root);
    }
  }

  /** The fit of a path depends on colors, not on which records carry them. */
  lemma {:induction false} AppendOk(a: Path, p: Path, side: Side, n: Ptr, n': Ptr, c: Color, sib: Tree, h: nat)
    requires PathOk(Append(a, In(p, side, n, c, sib)), h)
    ensures PathOk(Append(a, In(p, side, n', c, sib)), h)
    decreases a
  {
    if a.In? { AppendOk(a.up, p, side, n, n', c, sib, if a.color == Black then h + 1 else h); }
  }

  ghost predicate CanSubstitute(s: Store, n: Ptr, m: Ptr) {
    && n in s && m in s && m != n && s[n].parent != m
    && (s[n].parent == NULL || s[n].parent in s) && s[n].parent != n
    && s[n].left in s && s[n].left != n && s[n].left != NULL
    && (s[n].right == NULL || s[n].right in s) && s[n].right != n
  }

  /** (elm)->field = (old)->field, and every link to old now leads to elm. */
  ghost function Substituted(s: Store, n: Ptr, m: Ptr): Store
    requires CanSubstitute(s, n, m)
  {
    var s1 := s[m := s[n]];
    var s2 := Relinked(s1, s1[n].parent, n, m);
    var s3 := Reparented(s2, s2[n].left, m);
    Reparented(s3, s3[n].right, m)
  }

  lemma SubstitutedElsewhere(s: Store, n: Ptr, m: Ptr, on: set<Ptr>)
    requires CanSubstitute(s, n, m) && m !in on
    ensures var s', par, l, r := Substituted(s, n, m), s[n].parent, s[n].left, s[n].right;
      && (l !in on && (r == NULL || r !in on) ==> Agree(Relinked(s, par, n, m), s', on))
      && ((par == NULL || par !in on) && (r == NULL || r !in on) ==> Agree(Reparented(s, l, m), s', on))
      && ((par == NULL || par !in on) && l !in on ==> Agree(Reparented(s, r, m), s', on))
  {
  }

  /** What surrounds the record to be replaced. */
  ghost predicate Around(s: Store, p: Path, l: Tree, n: Ptr, r: Tree, m: Ptr) {
    && n in s && m != n && n !in Nodes(l) && n !in Nodes(r) && n !in PathNodes(p) && n != Holder(p) && n != Root(r)
    && s[n].left == Root(l) && s[n].right == Root(r) && s[n].parent == Holder(p)
    && Root(l) != NULL && Root(l) in s && Root(l) in Nodes(l)
    && (Root(r) != NULL ==> Root(r) in s && Root(r) in Nodes(r))
    && (Holder(p) != NULL ==> Holder(p) in s && Holder(p) in PathNodes(p))
    && m in s && m !in Nodes(l) && m !in Nodes(r) && m !in PathNodes(p) && m != Holder(p)
    && Nodes(l) !! Nodes(r) && Nodes(l) !! PathNodes(p) && Nodes(r) !! PathNodes(p)
  }

  lemma SubstitutedSubtrees(s: Store, p: Path, l: Tree, n: Ptr, r: Tree, m: Ptr)
    requires Around(s, p, l, n, r, m) && Rep(s, l, n) && Rep(s, r, n)
    ensures Rep(Substituted(s, n, m), l, m) && Rep(Substituted(s, n, m), r, m)
  {
    hide Rep, RepPath, Nodes, PathNodes;
    var s' := Substituted(s, n, m);
    SubstitutedElsewhere(s, n, m, Nodes(l));
    ReparentedRep(s, l, n, m);
    RepFrame(Reparented(s, Root(l), m), s', l, m);
    SubstitutedElsewhere(s, n, m, Nodes(r));
    ReparentedRep(s, r, n, m);
    RepFrame(Reparented(s, Root(r), m), s', r, m);
  }

  lemma SubstitutedPath(s: Store, p: Path, l: Tree, n: Ptr, r: Tree, m: Ptr, root: Ptr)
    requires Around(s, p, l, n, r, m) && RepPath(s, p, n, root) && n !in PathNodes(p) && n != NULL
    ensures RepPath(Substituted(s, n, m), p, m, if p.Top? then m else root)
  {
    hide Rep, RepPath, Nodes, PathNodes;
    SubstitutedElsewhere(s, n, m, PathNodes(p));
    RelinkedPath(s, p, n, m, root);
    RepPathFrame(Relinked(s, Holder(p), n, m), Substituted(s, n, m), p, m, if p.Top? then m else root);
  }

  lemma SubstitutedRecord(s: Store, p: Path, l: Tree, n: Ptr, r: Tree, m: Ptr)
    requires Around(s, p, l, n, r, m)
    ensures CanSubstitute(s, n, m) && Substituted(s, n, m)[m] == s[n]
    ensures Only(s, Substituted(s, n, m), PathNodes(p) + Nodes(l) + Nodes(r) + {m})
  {
  }

  lemma SubstitutedAt(s: Store, p: Path, l: Tree, n: Ptr, c: Color, r: Tree, m: Ptr, root: Ptr)
    requires At(s, p, Br(l, n, c, r), root) && l.Br? && m != NULL && m in s && m !in Foot(p, Br(l, n, c, r))
    ensures Around(s, p, l, n, r, m) && CanSubstitute(s, n, m) && (Holder(p) == NULL <==> p.Top?)
    ensures At(Substituted(s, n, m), p, Br(l, m, c, r), if p.Top? then m else root)
    ensures Only(s, Substituted(s, n, m), Foot(p, Br(l, n, c, r)) + {m})
  {
    assert Rep(s, l, n) && Rep(s, r, n);
    assert p.In? ==> p.node in PathNodes(p);
    assert l.node in Nodes(l) && (r.Br? ==> r.node in Nodes(r));
    SubstitutedSubtrees(s, p, l, n, r, m);
    SubstitutedPath(s, p, l, n, r, m, root);
    SubstitutedRecord(s, p, l, n, r, m);
  }

  lemma LeftmostOrder(a: Path, u: Tree)
    requires u.Br? && u.left.Leaf? && Before(a) == []
    ensures InOrder(Plug(a, u)) == [u.node] + InOrder(Plug(a, u.right))
  {
    PlugInOrder(a, u);
    PlugInOrder(a, u.right);
  }

  /** Moving the leftmost record of the right subtree up into the removed one's place. */
  lemma SuccessorOrder(p: Path, l: Tree, n: Ptr, c: Color, a: Path, u: Tree)
    requires u.Br? && u.left.Leaf? && Before(a) == []
    ensures Erases(InOrder(Plug(Append(a, In(p, Right, n, c, l)), u)), n,
                   InOrder(Plug(Append(a, In(p, Right, u.node, c, l)), u.right)))
  {
    hide Plug, Erases, Before, After, Append;
    var r, r' := Plug(a, u), Plug(a, u.right);
    AppendPlug(a, In(p, Right, n, c, l), u);
    AppendPlug(a, In(p, Right, u.node, c, l), u.right);
    PlugStep(p, Br(l, n, c, r));
    PlugStep(p, Br(l, u.node, c, r'));
    LeftmostOrder(a, u);
    PlugInOrder(p, Br(l, n, c, r));
    PlugInOrder(p, Br(l, u.node, c, r'));
    ErasesWithin(Before(p), InOrder(l), n, InOrder(r), After(p));
    assert InOrder(l) + InOrder(r) == InOrder(l) + [u.node] + InOrder(r');
  }

  lemma PlugStep(p: Path, t: Tree)
    requires t.Br?
    ensures Plug(In(p, Right, t.node, t.color, t.left), t.right) == Plug(p, t)
  {
  }

  /** Memory after the splice and the substitution, seen from the place the successor left. */
  lemma SuccessorAt(s: Store, p: Path, l: Tree, n: Ptr, c: Color, a: Path, t: Tree, m: Ptr, root: Ptr)
    requires At(s, Append(a, In(p, Right, n, c, l)), t, root) && l.Br?
    requires m != NULL && m in s && m !in Foot(Append(a, In(p, Right, n, c, l)), t)
    ensures CanSubstitute(s, n, m) && s[n].parent == Holder(p) && (Holder(p) == NULL <==> p.Top?)
    ensures At(Substituted(s, n, m), Append(a, In(p, Right, m, c, l)), t, if p.Top? then m else root)
    ensures Only(s, Substituted(s, n, m), Foot(Append(a, In(p, Right, n, c, l)), t) + {m})
  {
    var q, q', r := Append(a, In(p, Right, n, c, l)), Append(a, In(p, Right, m, c, l)), Plug(a, t);
    AppendPlug(a, In(p, Right, n, c, l), t);
    FootMembers(q, t);
    FootMembers(p, Br(l, n, c, r));
    AtAppend(s, a, In(p, Right, n, c, l), t, root);
    Up(s, p, Right, n, c, l, r, root);
    SubstitutedAt(s, p, l, n, c, r, m, root);
    var s', root' := Substituted(s, n, m), if p.Top? then m else root;
    Up(s', p, Right, m, c, l, r, root');
    AtAppend(s', a, In(p, Right, m, c, l), t, root');
  }

  lemma {:induction false} AppendContains(a: Path, p: Path, n: Ptr, c: Color, l: Tree)
    ensures n in PathNodes(Append(a, In(p, Right, n, c, l)))
    decreases a
  {
    if a.In? { AppendContains(a.up, p, n, c, l); }
  }

  /** The holder of the successor's place is the removed record exactly when the
      successor is its right child. */
  lemma AppendHolder(s: Store, a: Path, p: Path, n: Ptr, m: Ptr, c: Color, l: Tree, t: Tree, root: Ptr)
    requires At(s, Append(a, In(p, Right, n, c, l)), t, root)
    ensures var holder := Holder(Append(a, In(p, Right, n, c, l)));
      Holder(Append(a, In(p, Right, m, c, l))) == if holder == n then m else holder
  {
    if a.In? { AppendContains(a.up, p, n, c, l); }
  }

  /** Without a black record gone the tree is whole again; without a red one it is short. */
  lemma SplicedOk(p: Path, u: Tree, child: Tree, h: nat)
    requires Ok(u, h) && PathOk(p, h) && u.Br? && OnlyChild(u.left, u.right, child) && (IsRed(u) ==> p.In?)
    ensures u.color == Black ==> h > 0 && Weak(child, h - 1)
    ensures u.color == Red ==> Ok(child, h) && !IsRed(child)
  {
    if u.color == Black { OkWeak(child, h - 1); }
  }

  lemma AppendTop(b: Path)
    ensures Append(Top, b) == b && Before(Top) == []
  {
  }

  lemma AppendLeft(a: Path, b: Path, u: Tree)
    requires u.Br?
    ensures GoLeft(Append(a, b), u) == Append(GoLeft(a, u), b) && Before(GoLeft(a, u)) == Before(a)
  {
  }

  /** The focus shrinks to the only child: the record itself is left out. */
  lemma FootSplit(s: Store, p: Path, u: Tree, v: Tree, root: Ptr)
    requires At(s, p, u, root) && u.Br? && OnlyChild(u.left, u.right, v)
    ensures Foot(p, u) == Foot(p, v) + {u.node} && u.node !in Foot(p, v)
  {
    assert Nodes(v) + {u.node} == Nodes(u);
  }

  lemma ErasesMembers(s: seq<Ptr>, n: Ptr, s': seq<Ptr>)
    requires Erases(s, n, s')
    ensures Members(s') <= Members(s)
  {
  }
}
