/** One turn of the insertion fix-up loop, on layouts: what each case of
    RB_INSERT_COLOR does to the focused tree. Each case has a lemma about memory
    and one about balance and order. */
module RbInsert {
  import opened RbShape

  /** The focus of the insertion fix-up: a red subtree, itself red-black, on a
      red-black path; only the step from the path into it may be red-red. */
  ghost predicate RedFocus(p: Path, t: Tree, h: nat) {
    IsRed(t) && Ok(t, h) && PathOk(p, h)
  }

  /** What the loop reads while the parent is red: there is a black grandparent, and
      the comparisons with its links tell on which sides parent and elm hang. */
  lemma LoopReads(s: Store, p: Path, t: Tree, h: nat, root: Ptr)
    requires At(s, p, t, root) && RedFocus(p, t, h) && PathRed(p)
    ensures p.up.In? && p.up.color == Black
    ensures p.node in s && s[p.node].parent == p.up.node && p.up.node in s
    ensures s[p.up.node].left == p.node <==> p.up.side == Left
    ensures s[p.node].left == t.node <==> p.side == Left
    ensures s[p.node].right == t.node <==> p.side == Right
    ensures Child(Other(p.up.side), s[p.up.node]) == Root(p.up.sib)
    ensures s[p.up.node].right == (if p.up.side == Left then Root(p.up.sib) else p.node)
    ensures p.up.sib.Br? ==> p.up.sib.node != NULL && p.up.sib.node in s && s[p.up.sib.node].color == p.up.sib.color
  {
    ReadHolder(s, p, t, root);
    Up(s, p.up, p.side, p.node, Red, p.sib, t, root);
    ReadHolder(s, p.up, Join(p.side, t, p.node, Red, p.sib), root);
  }

  // ---------- red uncle ----------

  /** Parent and uncle turn black, the grandparent turns red and is next. */
  lemma RecolorMemory(s: Store, up: Path, sg: Side, g: Ptr, u: Tree, sp: Side, par: Ptr, sib: Tree, t: Tree, root: Ptr)
    requires At(s, In(In(up, sg, g, Black, u), sp, par, Red, sib), t, root) && u.Br?
    ensures g in s && par in s && u.node in s
    ensures At(Recolored(Recolored(Recolored(s, u.node, Black), par, Black), g, Red), up,
               Join(sg, Join(sp, t, par, Black, sib), g, Red, u.(color := Black)), root)
    ensures Only(s, Recolored(Recolored(Recolored(s, u.node, Black), par, Black), g, Red),
                 Foot(In(In(up, sg, g, Black, u), sp, par, Red, sib), t))
  {
    var pg, j, j' := In(up, sg, g, Black, u), Join(sp, t, par, Red, sib), Join(sp, t, par, Black, sib);
    Up(s, pg, sp, par, Red, sib, t, root);
    Across(s, up, sg, g, Black, u, j, root);
    RecoloredAt(s, In(up, Other(sg), g, Black, j), u, Black, root);
    var s1, u' := Recolored(s, u.node, Black), u.(color := Black);
    Across(s1, up, sg, g, Black, u', j, root);
    RecoloredAt(s1, In(up, sg, g, Black, u'), j, Black, root);
    var s2 := Recolored(s1, par, Black);
    Up(s2, up, sg, g, Black, u', j', root);
    RecoloredAt(s2, up, Join(sg, j', g, Black, u'), Red, root);
  }

  lemma RecolorTree(up: Path, sg: Side, g: Ptr, u: Tree, sp: Side, par: Ptr, sib: Tree, t: Tree, h: nat)
    requires RedFocus(In(In(up, sg, g, Black, u), sp, par, Red, sib), t, h) && IsRed(u)
    ensures var t' := Join(sg, Join(sp, t, par, Black, sib), g, Red, u.(color := Black));
      && RedFocus(up, t', h + 1)
      && SameOrder(In(In(up, sg, g, Black, u), sp, par, Red, sib), t, up, t')
  {
    var j, j' := Join(sp, t, par, Red, sib), Join(sp, t, par, Black, sib);
    var u' := u.(color := Black);
    assert PathOk(In(up, sg, g, Black, u), h);
    assert Ok(j', h + 1) && Ok(u', h + 1);
    assert InOrder(j') == InOrder(j) && InOrder(u') == InOrder(u);
    SwapOrder(up, Join(sg, j, g, Black, u), Join(sg, j', g, Red, u'));
  }

  // ---------- inner grandchild ----------

  /** Rotating at the parent puts elm above it. */
  lemma InnerMemory(s: Store, pg: Path, sg: Side, par: Ptr, sib: Tree, b: Tree, elm: Ptr, d: Tree, root: Ptr)
    requires At(s, In(pg, Other(sg), par, Red, sib), Join(sg, b, elm, Red, d), root) && pg.In?
    ensures CanRotate(sg, s, par) && s[par].parent == pg.node && pg.node != NULL && Child(Other(sg), s[par]) == elm
    ensures At(Rotated(sg, s, par), In(pg, sg, elm, Red, d), Join(sg, sib, par, Red, b), root)
    ensures Only(s, Rotated(sg, s, par), Foot(In(pg, Other(sg), par, Red, sib), Join(sg, b, elm, Red, d)))
  {
    FootUp(pg, Other(sg), par, Red, sib, Join(sg, b, elm, Red, d));
    var t, t' := Join(sg, b, elm, Red, d), Join(sg, sib, par, Red, b);
    Up(s, pg, Other(sg), par, Red, sib, t, root);
    RotatedAt(sg, s, pg, sib, par, Red, b, elm, Red, d, root);
    Up(Rotated(sg, s, par), pg, sg, elm, Red, d, t', root);
  }

  lemma InnerTree(pg: Path, sg: Side, par: Ptr, sib: Tree, b: Tree, elm: Ptr, d: Tree, h: nat)
    requires RedFocus(In(pg, Other(sg), par, Red, sib), Join(sg, b, elm, Red, d), h)
    ensures var p', t' := In(pg, sg, elm, Red, d), Join(sg, sib, par, Red, b);
      && RedFocus(p', t', h)
      && SameOrder(In(pg, Other(sg), par, Red, sib), Join(sg, b, elm, Red, d), p', t')
  {
    var t, t' := Join(sg, b, elm, Red, d), Join(sg, sib, par, Red, b);
    assert InOrder(Join(sg, sib, par, Red, t)) == InOrder(Join(sg, t', elm, Red, d)) by {
      RotationOrder(sg, sib, par, Red, b, elm, Red, d);
    }
    SwapOrder(pg, Join(sg, sib, par, Red, t), Join(sg, t', elm, Red, d));
  }

  // ---------- outer grandchild ----------

  /** The parent takes the grandparent's place, in black, and the grandparent turns red. */
  lemma OuterMemory(s: Store, up: Path, sg: Side, g: Ptr, u: Tree, par: Ptr, sib: Tree, t: Tree, root: Ptr)
    requires At(s, In(In(up, sg, g, Black, u), sg, par, Red, sib), t, root)
    ensures g in s && par in s
    ensures var s2 := Recolored(Recolored(s, par, Black), g, Red);
      && CanRotate(Other(sg), s2, g) && s2[g].parent == Holder(up) && Child(sg, s2[g]) == par
      && (Holder(up) == NULL <==> up.Top?)
      && At(Rotated(Other(sg), s2, g), In(up, sg, par, Black, Join(sg, sib, g, Red, u)), t,
            if up.Top? then par else root)
      && Only(s2, Rotated(Other(sg), s2, g), Foot(up, Join(sg, Join(sg, t, par, Black, sib), g, Red, u)))
  {
    var pg, j, j' := In(up, sg, g, Black, u), Join(sg, t, par, Red, sib), Join(sg, t, par, Black, sib);
    Up(s, pg, sg, par, Red, sib, t, root);
    RecoloredAt(s, pg, j, Black, root);
    var s1 := Recolored(s, par, Black);
    Up(s1, up, sg, g, Black, u, j', root);
    RecoloredAt(s1, up, Join(sg, j', g, Black, u), Red, root);
    var s2 := Recolored(s1, g, Red);
    RotatedAt(Other(sg), s2, up, u, g, Red, sib, par, Black, t, root);
    Up(Rotated(Other(sg), s2, g), up, sg, par, Black, Join(sg, sib, g, Red, u), t, if up.Top? then par else root);
  }

  lemma OuterOnly(s: Store, up: Path, sg: Side, g: Ptr, u: Tree, par: Ptr, sib: Tree, t: Tree, root: Ptr)
    requires At(s, In(In(up, sg, g, Black, u), sg, par, Red, sib), t, root)
    requires g in s && par in s
    requires var s2 := Recolored(Recolored(s, par, Black), g, Red);
      && CanRotate(Other(sg), s2, g)
      && Only(s2, Rotated(Other(sg), s2, g), Foot(up, Join(sg, Join(sg, t, par, Black, sib), g, Red, u)))
    ensures Only(s, Rotated(Other(sg), Recolored(Recolored(s, par, Black), g, Red), g),
                 Foot(In(In(up, sg, g, Black, u), sg, par, Red, sib), t))
  {
    var pg := In(up, sg, g, Black, u);
    FootUp(pg, sg, par, Red, sib, t);
    FootUp(up, sg, g, Black, u, Join(sg, t, par, Red, sib));
    FootUp(up, sg, g, Red, u, Join(sg, t, par, Black, sib));
    assert g in PathNodes(In(pg, sg, par, Red, sib)) && par in PathNodes(In(pg, sg, par, Red, sib));
    assert Nodes(Join(sg, t, par, Red, sib)) == Nodes(Join(sg, t, par, Black, sib));
  }

  lemma OuterTree(up: Path, sg: Side, g: Ptr, u: Tree, par: Ptr, sib: Tree, t: Tree, h: nat)
    requires RedFocus(In(In(up, sg, g, Black, u), sg, par, Red, sib), t, h) && !IsRed(u)
    ensures var p' := In(up, sg, par, Black, Join(sg, sib, g, Red, u));
      && RedFocus(p', t, h)
      && SameOrder(In(In(up, sg, g, Black, u), sg, par, Red, sib), t, p', t)
  {
    assert PathOk(In(up, sg, g, Black, u), h);
    assert Ok(Join(sg, sib, g, Red, u), h);
    var j, t' := Join(sg, t, par, Red, sib), Join(sg, t, par, Black, Join(sg, sib, g, Red, u));
    assert InOrder(Join(sg, j, g, Black, u)) == InOrder(t') by {
      RotationOrder(Other(sg), u, g, Black, sib, par, Black, t);
      assert InOrder(j) == InOrder(Join(sg, t, par, Black, sib));
    }
    SwapOrder(up, Join(sg, j, g, Black, u), t');
  }
}
