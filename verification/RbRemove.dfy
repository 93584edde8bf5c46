/** One turn of the deletion fix-up loop and the splice before it, on layouts.
    Each case of RB_REMOVE_COLOR has a lemma about memory and one about balance. */
module RbRemove {
  import opened RbShape

  /** The focus of the deletion fix-up: the subtree is one black node short of what
      its path asks for, and only its root may break the color rule. */
  ghost predicate ShortFocus(p: Path, t: Tree, h: nat) {
    Weak(t, h) && PathOk(p, h + 1)
  }

  /** In the loop the sibling is a node, so its color and children can be read. */
  lemma LoopReads(s: Store, p: Path, t: Tree, h: nat, root: Ptr)
    requires At(s, p, t, root) && ShortFocus(p, t, h) && p.In?
    ensures p.sib.Br? && p.sib.node != NULL && p.sib.node in s
    ensures s[p.sib.node] == Links(Root(p.sib.left), Root(p.sib.right), p.node, p.sib.color)
    ensures (p.sib.left.Br? <==> Root(p.sib.left) != NULL) && (p.sib.right.Br? <==> Root(p.sib.right) != NULL)
    ensures Root(p.sib.left) != NULL ==>
      p.sib.left.Br? && Root(p.sib.left) in s && s[Root(p.sib.left)].color == p.sib.left.color
    ensures Root(p.sib.right) != NULL ==>
      p.sib.right.Br? && Root(p.sib.right) in s && s[Root(p.sib.right)].color == p.sib.right.color
    ensures p.node in s && p.node != NULL && s[p.node].color == p.color && s[p.node].parent == Holder(p.up)
    ensures Child(p.side, s[p.node]) == Root(t) && Child(Other(p.side), s[p.node]) == p.sib.node
    ensures Root(t) != p.sib.node
    ensures p.color == Red ==> p.sib.color == Black
  {
    ReadHolder(s, p, t, root);
    assert Rep(s, p.sib, p.node);
    assert Rep(s, p.sib.left, p.sib.node) && Rep(s, p.sib.right, p.sib.node);
  }

  // ---------- red sibling ----------

  lemma RedSiblingMemory(s: Store, up: Path, sp: Side, par: Ptr, t: Tree, b: Tree, y: Ptr, d: Tree, root: Ptr)
    requires At(s, In(up, sp, par, Black, Join(sp, b, y, Red, d)), t, root)
    ensures y in s && par in s
    ensures var s2 := Recolored(Recolored(s, y, Black), par, Red);
      && CanRotate(sp, s2, par) && s2[par].parent == Holder(up) && Child(Other(sp), s2[par]) == y
      && (Holder(up) == NULL <==> up.Top?)
      && At(Rotated(sp, s2, par), In(In(up, sp, y, Black, d), sp, par, Red, b), t, if up.Top? then y else root)
      && Only(s2, Rotated(sp, s2, par), Foot(up, Join(sp, t, par, Red, Join(sp, b, y, Black, d))))
  {
    var sib, sib' := Join(sp, b, y, Red, d), Join(sp, b, y, Black, d);
    Across(s, up, sp, par, Black, sib, t, root);
    RecoloredAt(s, In(up, Other(sp), par, Black, t), sib, Black, root);
    var s1 := Recolored(s, y, Black);
    Up(s1, up, Other(sp), par, Black, t, sib', root);
    RecoloredAt(s1, up, Join(sp, t, par, Black, sib'), Red, root);
    var s2 := Recolored(s1, par, Red);
    RotatedAt(sp, s2, up, t, par, Red, b, y, Black, d, root);
    var s3, root' := Rotated(sp, s2, par), if up.Top? then y else root;
    Up(s3, up, sp, y, Black, d, Join(sp, t, par, Red, b), root');
    Up(s3, In(up, sp, y, Black, d), sp, par, Red, b, t, root');
  }

  lemma RedSiblingTree(up: Path, sp: Side, par: Ptr, t: Tree, b: Tree, y: Ptr, d: Tree, h: nat)
    requires ShortFocus(In(up, sp, par, Black, Join(sp, b, y, Red, d)), t, h)
    ensures var p' := In(In(up, sp, y, Black, d), sp, par, Red, b);
      ShortFocus(p', t, h) && SameOrder(In(up, sp, par, Black, Join(sp, b, y, Red, d)), t, p', t)
    ensures !IsRed(b)
    ensures Foot(up, Join(sp, t, par, Red, Join(sp, b, y, Black, d)))
            == Foot(In(up, sp, par, Black, Join(sp, b, y, Red, d)), t)
    ensures y in Foot(In(up, sp, par, Black, Join(sp, b, y, Red, d)), t)
  {
    RotationOrder(sp, t, par, Red, b, y, Black, d);
    assert InOrder(Join(sp, t, par, Red, Join(sp, b, y, Black, d)))
      == InOrder(Join(sp, t, par, Black, Join(sp, b, y, Red, d)));
    SwapOrder(up, Join(sp, t, par, Black, Join(sp, b, y, Red, d)), Join(sp, Join(sp, t, par, Red, b), y, Black, d));
    FootUp(up, sp, par, Black, Join(sp, b, y, Red, d), t);
    NodesJoin(sp, b, y, Red, d);
    NodesJoin(sp, b, y, Black, d);
    NodesJoin(sp, t, par, Red, Join(sp, b, y, Black, d));
    NodesJoin(sp, t, par, Black, Join(sp, b, y, Red, d));
  }

  // ---------- black sibling without a red child ----------

  lemma BlackNephewsMemory(s: Store, up: Path, sp: Side, par: Ptr, c: Color, t: Tree, sib: Tree, root: Ptr)
    requires At(s, In(up, sp, par, c, sib), t, root) && sib.Br?
    ensures sib.node in s && At(Recolored(s, sib.node, Red), up, Join(sp, t, par, c, sib.(color := Red)), root)
  {
    Across(s, up, sp, par, c, sib, t, root);
    RecoloredAt(s, In(up, Other(sp), par, c, t), sib, Red, root);
    Up(Recolored(s, sib.node, Red), up, Other(sp), par, c, t, sib.(color := Red), root);
  }

  lemma BlackNephewsTree(up: Path, sp: Side, par: Ptr, c: Color, t: Tree, sib: Tree, h: nat)
    requires ShortFocus(In(up, sp, par, c, sib), t, h) && !IsRed(t)
    requires sib.Br? && sib.color == Black && !IsRed(sib.left) && !IsRed(sib.right)
    ensures var t' := Join(sp, t, par, c, sib.(color := Red));
      && ShortFocus(up, t', if c == Black then h + 1 else h)
      && SameOrder(In(up, sp, par, c, sib), t, up, t')
    ensures sib.node in Foot(In(up, sp, par, c, sib), t)
  {
    assert InOrder(sib.(color := Red)) == InOrder(sib);
    SwapOrder(up, Join(sp, t, par, c, sib), Join(sp, t, par, c, sib.(color := Red)));
    assert sib.node in Nodes(sib);
  }

  // ---------- near nephew red, far one black ----------

  lemma NearNephewMemory(s: Store, up: Path, sp: Side, par: Ptr, c: Color, t: Tree,
                         b1: Tree, z: Ptr, b2: Tree, y: Ptr, d: Tree, root: Ptr)
    requires At(s, In(up, sp, par, c, Join(sp, Join(sp, b1, z, Red, b2), y, Black, d)), t, root)
    ensures z in s && y in s
    ensures var s2 := Recolored(Recolored(s, z, Black), y, Red);
      && CanRotate(Other(sp), s2, y) && s2[y].parent == par && par != NULL && Child(sp, s2[y]) == z
      && At(Rotated(Other(sp), s2, y), In(up, sp, par, c, Join(sp, b1, z, Black, Join(sp, b2, y, Red, d))), t, root)
      && Only(s2, Rotated(Other(sp), s2, y),
              Foot(In(up, Other(sp), par, c, t), Join(sp, Join(sp, b1, z, Black, b2), y, Red, d)))
  {
    var q, b, b' := In(up, Other(sp), par, c, t), Join(sp, b1, z, Red, b2), Join(sp, b1, z, Black, b2);
    Across(s, up, sp, par, c, Join(sp, b, y, Black, d), t, root);
    Up(s, q, sp, y, Black, d, b, root);
    RecoloredAt(s, In(q, sp, y, Black, d), b, Black, root);
    var s1 := Recolored(s, z, Black);
    Up(s1, q, sp, y, Black, d, b', root);
    RecoloredAt(s1, q, Join(sp, b', y, Black, d), Red, root);
    var s2 := Recolored(s1, y, Red);
    RotatedAt(Other(sp), s2, q, d, y, Red, b2, z, Black, b1, root);
    Across(Rotated(Other(sp), s2, y), up, sp, par, c, Join(sp, b1, z, Black, Join(sp, b2, y, Red, d)), t, root);
  }

  lemma NearNephewTree(up: Path, sp: Side, par: Ptr, c: Color, t: Tree, b1: Tree, z: Ptr, b2: Tree, y: Ptr, d: Tree,
                       h: nat)
    requires ShortFocus(In(up, sp, par, c, Join(sp, Join(sp, b1, z, Red, b2), y, Black, d)), t, h) && !IsRed(d)
    ensures var p' := In(up, sp, par, c, Join(sp, b1, z, Black, Join(sp, b2, y, Red, d)));
      && ShortFocus(p', t, h)
      && SameOrder(In(up, sp, par, c, Join(sp, Join(sp, b1, z, Red, b2), y, Black, d)), t, p', t)
  {
    var sib, sib' := Join(sp, Join(sp, b1, z, Red, b2), y, Black, d), Join(sp, b1, z, Black, Join(sp, b2, y, Red, d));
    assert InOrder(sib') == InOrder(sib) by {
      RotationOrder(Other(sp), d, y, Black, b2, z, Red, b1);
    }
    SwapOrder(up, Join(sp, t, par, c, sib), Join(sp, t, par, c, sib'));
    OkJoin(sp, Join(sp, b1, z, Red, b2), y, Black, d, h + 1);
    OkJoin(sp, b1, z, Red, b2, h);
    OkJoin(sp, b2, y, Red, d, h);
    OkJoin(sp, b1, z, Black, Join(sp, b2, y, Red, d), h + 1);
  }

  lemma NearNephewFoot(up: Path, sp: Side, par: Ptr, c: Color, t: Tree, b1: Tree, z: Ptr, b2: Tree, y: Ptr, d: Tree)
    ensures var foot := Foot(In(up, sp, par, c, Join(sp, Join(sp, b1, z, Red, b2), y, Black, d)), t);
      && Foot(In(up, Other(sp), par, c, t), Join(sp, Join(sp, b1, z, Black, b2), y, Red, d)) == foot
      && y in foot && z in foot
  {
    var sib := Join(sp, Join(sp, b1, z, Red, b2), y, Black, d);
    FootUp(up, sp, par, c, sib, t);
    FootUp(up, Other(sp), par, c, t, sib);
    NodesJoin(sp, b1, z, Black, b2);
    NodesJoin(sp, b1, z, Red, b2);
    NodesJoin(sp, Join(sp, b1, z, Red, b2), y, Black, d);
    NodesJoin(sp, Join(sp, b1, z, Black, b2), y, Red, d);
  }

  // ---------- far nephew red ----------

  lemma FarNephewMemory(s: Store, up: Path, sp: Side, par: Ptr, c: Color, t: Tree, b: Tree, y: Ptr, d: Tree, root: Ptr)
    requires At(s, In(up, sp, par, c, Join(sp, b, y, Black, d)), t, root) && d.Br?
    ensures y in s && par in s && d.node in s
    ensures var s3 := Recolored(Recolored(Recolored(s, y, c), par, Black), d.node, Black);
      && CanRotate(sp, s3, par) && s3[par].parent == Holder(up) && Child(Other(sp), s3[par]) == y
      && (Holder(up) == NULL <==> up.Top?)
      && At(Rotated(sp, s3, par), up, Join(sp, Join(sp, t, par, Black, b), y, c, d.(color := Black)),
            if up.Top? then y else root)
      && Only(s3, Rotated(sp, s3, par), Foot(up, Join(sp, t, par, Black, Join(sp, b, y, c, d.(color := Black)))))
  {
    var sib, d' := Join(sp, b, y, Black, d), d.(color := Black);
    Across(s, up, sp, par, c, sib, t, root);
    RecoloredAt(s, In(up, Other(sp), par, c, t), sib, c, root);
    var s1, sib1 := Recolored(s, y, c), Join(sp, b, y, c, d);
    Up(s1, up, Other(sp), par, c, t, sib1, root);
    RecoloredAt(s1, up, Join(sp, t, par, c, sib1), Black, root);
    var s2 := Recolored(s1, par, Black);
    var q := In(up, Other(sp), par, Black, t);
    Up(s2, up, Other(sp), par, Black, t, sib1, root);
    Up(s2, q, Other(sp), y, c, b, d, root);
    RecoloredAt(s2, In(q, Other(sp), y, c, b), d, Black, root);
    var s3 := Recolored(s2, d.node, Black);
    Up(s3, q, Other(sp), y, c, b, d', root);
    Up(s3, up, Other(sp), par, Black, t, Join(sp, b, y, c, d'), root);
    RotatedAt(sp, s3, up, t, par, Black, b, y, c, d', root);
  }

  lemma FarNephewTree(up: Path, sp: Side, par: Ptr, c: Color, t: Tree, b: Tree, y: Ptr, d: Tree, h: nat)
    requires ShortFocus(In(up, sp, par, c, Join(sp, b, y, Black, d)), t, h) && IsRed(d) && !IsRed(t)
    ensures var t', h' :=
        Join(sp, Join(sp, t, par, Black, b), y, c, d.(color := Black)), if c == Black then h + 2 else h + 1;
      && Ok(t', h') && PathOk(up, h') && (IsRed(t') ==> up.In? && !PathRed(up))
      && SameOrder(In(up, sp, par, c, Join(sp, b, y, Black, d)), t, up, t')
    ensures Foot(up, Join(sp, t, par, Black, Join(sp, b, y, c, d.(color := Black))))
            == Foot(In(up, sp, par, c, Join(sp, b, y, Black, d)), t)
    ensures y in Foot(In(up, sp, par, c, Join(sp, b, y, Black, d)), t)
    ensures d.node in Foot(In(up, sp, par, c, Join(sp, b, y, Black, d)), t)
  {
    FarNephewFoot(up, sp, par, c, t, b, y, d);
    hide Foot, Nodes, PathNodes;
    var d' := d.(color := Black);
    var sib := Join(sp, b, y, Black, d);
    assert InOrder(d') == InOrder(d);
    RotationOrder(sp, t, par, Black, b, y, c, d');
    SwapOrder(up, Join(sp, t, par, c, sib), Join(sp, Join(sp, t, par, Black, b), y, c, d'));
    OkJoin(sp, b, y, Black, d, h + 1);
    OkJoin(sp, t, par, Black, b, h + 1);
    OkJoin(sp, Join(sp, t, par, Black, b), y, c, d', if c == Black then h + 2 else h + 1);
  }

  /** The records concerned are the same ones, the two recoloured ones among them. */
  lemma FarNephewFoot(up: Path, sp: Side, par: Ptr, c: Color, t: Tree, b: Tree, y: Ptr, d: Tree)
    requires d.Br?
    ensures Foot(up, Join(sp, t, par, Black, Join(sp, b, y, c, d.(color := Black))))
            == Foot(In(up, sp, par, c, Join(sp, b, y, Black, d)), t)
    ensures y in Foot(In(up, sp, par, c, Join(sp, b, y, Black, d)), t)
    ensures d.node in Foot(In(up, sp, par, c, Join(sp, b, y, Black, d)), t)
  {
    var d' := d.(color := Black);
    var sib, sib' := Join(sp, b, y, Black, d), Join(sp, b, y, c, d');
    assert Nodes(d') == Nodes(d) && d.node in Nodes(d);
    FootUp(up, sp, par, c, sib, t);
    NodesJoin(sp, b, y, Black, d);
    NodesJoin(sp, b, y, c, d');
    NodesJoin(sp, t, par, Black, sib');
    NodesJoin(sp, t, par, c, sib);
  }

  // ---------- leaving the loop ----------

  /** A red root of the short subtree makes up for the missing black node. */
  lemma Finish(s: Store, p: Path, t: Tree, h: nat, root: Ptr)
    requires At(s, p, t, root) && ShortFocus(p, t, h) && (p.Top? || IsRed(t))
    ensures var t' := Plug(p, Blackened(t));
      && (t.Br? ==> t.node in s && t.node in Foot(p, t))
      && At(if t.Br? then Recolored(s, t.node, Black) else s, Top, t', root)
      && Ok(t', BlackHeight(t')) && !IsRed(t') && InOrder(t') == InOrder(Plug(p, t))
  {
    var u := Blackened(t);
    if t.Br? {
      RecoloredAt(s, p, t, Black, root);
      AtPlug(Recolored(s, t.node, Black), p, u, root);
    } else {
      AtPlug(s, p, t, root);
    }
    SwapOrder(p, t, u);
    PlugOk(p, u, if IsRed(t) then h + 1 else h);
  }

  lemma OkWeakTop(p: Path, t: Tree, h: nat)
    requires Ok(t, h) && (IsRed(t) ==> p.In?)
    ensures Weak(t, h)
  {
  }
}
