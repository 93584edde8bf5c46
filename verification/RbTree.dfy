/** The red-black tree of xhook/tree.h, updated in place. */
module RbTree {
  import opened CString
  import opened RbShape
  import opened RbSearch
  import opened RbWalk
  import RbInsert
  import RbRemove
  import opened RbSplice

  lemma {:induction false} AddressBound(s: set<Ptr>) returns (b: Ptr)
    ensures forall n :: n in s ==> n < b
  {
    if s == {} {
      b := 0;
    } else {
      var n :| n in s;
      var c := AddressBound(s - {n});
      b := if n < c then c else n + 1;
      assert forall x :: x in s ==> x == n || x in s - {n};
    }
  }

  lemma FreshAddress(s: set<Ptr>)
    ensures exists n: Ptr :: n != NULL && n !in s
  {
    var b := AddressBound(s);
    assert b + 1 !in s;
  }

  /** The map-info records in memory: each field of each allocated record. */
  class Records {
    var links: Store
    var pathname: map<Ptr, CStr>
    var baseAddr: map<Ptr, nat>

    constructor ()
      ensures links == map[] && pathname == map[] && baseAddr == map[]
    {
      links, pathname, baseAddr := map[], map[], map[];
    }

    /** malloc and strdup: a record at an address not in use. */
    method New(path: CStr, base: nat) returns (n: Ptr)
      modifies this
      ensures n != NULL && n !in old(links) && n !in old(pathname) && n !in old(baseAddr)
      ensures n in links && links == old(links)[n := links[n]]
      ensures pathname == old(pathname)[n := path] && baseAddr == old(baseAddr)[n := base]
      ensures links.Keys == old(links).Keys + {n}
      ensures pathname.Keys == old(pathname).Keys + {n} && baseAddr.Keys == old(baseAddr).Keys + {n}
    {
      FreshAddress(links.Keys + pathname.Keys + baseAddr.Keys);
      n :| n != NULL && n !in links && n !in pathname && n !in baseAddr;
      links := links[n := Links(NULL, NULL, NULL, Black)];
      pathname, baseAddr := pathname[n := path], baseAddr[n := base];
    }

    /** free(mi->pathname); free(mi) */
    method Free(n: Ptr)
      requires n in links && n in pathname && n in baseAddr
      modifies this
      ensures links == old(links) - {n} && pathname == old(pathname) - {n} && baseAddr == old(baseAddr) - {n}
    {
      links, pathname, baseAddr := links - {n}, pathname - {n}, baseAddr - {n};
    }

    method SetBase(n: Ptr, base: nat)
      requires n in baseAddr
      modifies `baseAddr
      ensures baseAddr == old(baseAddr)[n := base]
    {
      baseAddr := baseAddr[n := base];
    }

    method SetLeft(n: Ptr, left: Ptr)
      requires n in links
      modifies `links
      ensures links == old(links)[n := old(links)[n].(left := left)]
    {
      links := links[n := links[n].(left := left)];
    }

    method SetRight(n: Ptr, right: Ptr)
      requires n in links
      modifies `links
      ensures links == old(links)[n := old(links)[n].(right := right)]
    {
      links := links[n := links[n].(right := right)];
    }

    method SetParent(n: Ptr, parent: Ptr)
      requires n in links
      modifies `links
      ensures links == old(links)[n := old(links)[n].(parent := parent)]
    {
      links := links[n := links[n].(parent := parent)];
    }

    method SetColor(n: Ptr, color: Color)
      requires n in links
      modifies `links
      ensures links == Recolored(old(links), n, color)
    {
      links := links[n := links[n].(color := color)];
    }
  }

  /** A tree head, with the tree it leads to. */
  class RbHead {
    const mem: Records
    var root: Ptr
    ghost var tree: Tree

    ghost predicate Valid()
      reads this, mem
    {
      && At(mem.links, Top, tree, root)
      && Ok(tree, BlackHeight(tree)) && !IsRed(tree)
      && Sorted(InOrder(tree), mem.pathname)
    }

    constructor (mem: Records)
      ensures Valid() && tree == Leaf && this.mem == mem
    {
      this.mem := mem;
      root, tree := NULL, Leaf;
    }

    lemma Facts()
      requires Valid()
      ensures NULL !in InOrder(tree) && Sorted(InOrder(tree), mem.pathname)
    {
      NoNull(mem.links, tree, NULL);
    }

    /** Changes elsewhere in memory leave the tree as it is. */
    twostate lemma Untouched(on: set<Ptr>)
      requires old(Valid()) && tree == old(tree) && root == old(root)
      requires Members(InOrder(tree)) !! on
      requires forall n :: n in old(mem.links) && n !in on ==> n in mem.links && mem.links[n] == old(mem.links)[n]
      requires forall n :: n in Members(InOrder(tree)) ==> n in mem.pathname && mem.pathname[n] == old(mem.pathname)[n]
      ensures Valid()
    {
      InOrderMembers(tree);
      RepFrame(old(mem.links), mem.links, tree, NULL);
    }

    method RotateLeft(elm: Ptr) returns (tmp: Ptr)
      requires CanRotate(Left, mem.links, elm)
      modifies `root, mem`links
      ensures tmp == old(mem.links)[elm].right
      ensures mem.links == Rotated(Left, old(mem.links), elm)
      ensures root == if old(mem.links)[elm].parent == NULL then tmp else old(root)
    {
      tmp := mem.links[elm].right;
      mem.SetRight(elm, mem.links[tmp].left);
      if mem.links[elm].right != NULL {
        mem.SetParent(mem.links[tmp].left, elm);
      }
      mem.SetParent(tmp, mem.links[elm].parent);
      if mem.links[tmp].parent != NULL {
        var parent := mem.links[elm].parent;
        if elm == mem.links[parent].left {
          mem.SetLeft(parent, tmp);
        } else {
          mem.SetRight(parent, tmp);
        }
      } else {
        root := tmp;
      }
      mem.SetLeft(tmp, elm);
      mem.SetParent(elm, tmp);
    }

    method RotateRight(elm: Ptr) returns (tmp: Ptr)
      requires CanRotate(Right, mem.links, elm)
      modifies `root, mem`links
      ensures tmp == old(mem.links)[elm].left
      ensures mem.links == Rotated(Right, old(mem.links), elm)
      ensures root == if old(mem.links)[elm].parent == NULL then tmp else old(root)
    {
      tmp := mem.links[elm].left;
      mem.SetLeft(elm, mem.links[tmp].right);
      if mem.links[elm].left != NULL {
        mem.SetParent(mem.links[tmp].right, elm);
      }
      mem.SetParent(tmp, mem.links[elm].parent);
      if mem.links[tmp].parent != NULL {
        var parent := mem.links[elm].parent;
        if elm == mem.links[parent].left {
          mem.SetLeft(parent, tmp);
        } else {
          mem.SetRight(parent, tmp);
        }
      } else {
        root := tmp;
      }
      mem.SetRight(tmp, elm);
      mem.SetParent(elm, tmp);
    }

    /** The end of the insertion fix-up when parent is gparent's left child and elm parent's. */
    method InsertOuterLeft(parent: Ptr, gparent: Ptr, ghost up: Path, ghost u: Tree, ghost sib: Tree, ghost t: Tree,
                           ghost h: nat)
      returns (ghost p': Path)
      requires var p := In(In(up, Left, gparent, Black, u), Left, parent, Red, sib);
        At(mem.links, p, t, root) && RbInsert.RedFocus(p, t, h) && !IsRed(u)
      modifies `root, mem`links
      ensures At(mem.links, p', t, root) && RbInsert.RedFocus(p', t, h)
      ensures var p := In(In(up, Left, gparent, Black, u), Left, parent, Red, sib);
        SameOrder(p, t, p', t) && Depth(p') < Depth(p) && Only(old(mem.links), mem.links, Foot(p, t))
    {
      RbInsert.OuterMemory(mem.links, up, Left, gparent, u, parent, sib, t, root);
      RbInsert.OuterOnly(mem.links, up, Left, gparent, u, parent, sib, t, root);
      RbInsert.OuterTree(up, Left, gparent, u, parent, sib, t, h);
      mem.SetColor(parent, Black);
      mem.SetColor(gparent, Red);
      var _ := RotateRight(gparent);
      p' := In(up, Left, parent, Black, Join(Left, sib, gparent, Red, u));
    }

    /** The end of the insertion fix-up when parent is gparent's right child and elm parent's. */
    method InsertOuterRight(parent: Ptr, gparent: Ptr, ghost up: Path, ghost u: Tree, ghost sib: Tree, ghost t: Tree,
                            ghost h: nat)
      returns (ghost p': Path)
      requires var p := In(In(up, Right, gparent, Black, u), Right, parent, Red, sib);
        At(mem.links, p, t, root) && RbInsert.RedFocus(p, t, h) && !IsRed(u)
      modifies `root, mem`links
      ensures At(mem.links, p', t, root) && RbInsert.RedFocus(p', t, h)
      ensures var p := In(In(up, Right, gparent, Black, u), Right, parent, Red, sib);
        SameOrder(p, t, p', t) && Depth(p') < Depth(p) && Only(old(mem.links), mem.links, Foot(p, t))
    {
      RbInsert.OuterMemory(mem.links, up, Right, gparent, u, parent, sib, t, root);
      RbInsert.OuterOnly(mem.links, up, Right, gparent, u, parent, sib, t, root);
      RbInsert.OuterTree(up, Right, gparent, u, parent, sib, t, h);
      mem.SetColor(parent, Black);
      mem.SetColor(gparent, Red);
      var _ := RotateLeft(gparent);
      p' := In(up, Right, parent, Black, Join(Right, sib, gparent, Red, u));
    }

    /** One turn of the insertion fix-up when parent is gparent's left child. */
    method InsertTurnLeft(elm: Ptr, parent: Ptr, gparent: Ptr,
                          ghost up: Path, ghost u: Tree, ghost sp: Side, ghost sib: Tree, ghost t: Tree, ghost h: nat)
      returns (elm': Ptr, ghost p': Path, ghost t': Tree, ghost h': nat)
      requires var p := In(In(up, Left, gparent, Black, u), sp, parent, Red, sib);
        At(mem.links, p, t, root) && RbInsert.RedFocus(p, t, h) && t.node == elm
      modifies `root, mem`links
      ensures At(mem.links, p', t', root) && RbInsert.RedFocus(p', t', h') && t'.node == elm'
      ensures var p := In(In(up, Left, gparent, Black, u), sp, parent, Red, sib);
        SameOrder(p, t, p', t') && Depth(p') < Depth(p) && Only(old(mem.links), mem.links, Foot(p, t))
    {
      hide Rep, RepPath, Ok, PathOk, Nodes, PathNodes, InOrder, Plug;
      ghost var s, pg := mem.links, In(up, Left, gparent, Black, u);
      ghost var p := In(pg, sp, parent, Red, sib);
      RbInsert.LoopReads(s, p, t, h, root);
      var tmp := mem.links[gparent].right;
      if tmp != NULL && mem.links[tmp].color == Red {
        RbInsert.RecolorMemory(s, up, Left, gparent, u, sp, parent, sib, t, root);
        RbInsert.RecolorTree(up, Left, gparent, u, sp, parent, sib, t, h);
        mem.SetColor(tmp, Black);
        mem.SetColor(parent, Black);
        mem.SetColor(gparent, Red);
        return gparent, up, Join(Left, Join(sp, t, parent, Black, sib), gparent, Red, u.(color := Black)), h + 1;
      }
      if mem.links[parent].right == elm {
        RbInsert.InnerMemory(s, pg, Left, parent, sib, t.left, elm, t.right, root);
        RbInsert.InnerTree(pg, Left, parent, sib, t.left, elm, t.right, h);
        var _ := RotateLeft(parent);
        ghost var p1, t1 := In(pg, Left, elm, Red, t.right), Join(Left, sib, parent, Red, t.left);
        FootMembers(p, t);
        FootMembers(p1, t1);
        p' := InsertOuterLeft(elm, gparent, up, u, t.right, t1, h);
        elm', t', h' := parent, t1, h;
      } else {
        p' := InsertOuterLeft(parent, gparent, up, u, sib, t, h);
        elm', t', h' := elm, t, h;
      }
    }

    /** One turn of the insertion fix-up when parent is gparent's right child. */
    method InsertTurnRight(elm: Ptr, parent: Ptr, gparent: Ptr,
                          ghost up: Path, ghost u: Tree, ghost sp: Side, ghost sib: Tree, ghost t: Tree, ghost h: nat)
      returns (elm': Ptr, ghost p': Path, ghost t': Tree, ghost h': nat)
      requires var p := In(In(up, Right, gparent, Black, u), sp, parent, Red, sib);
        At(mem.links, p, t, root) && RbInsert.RedFocus(p, t, h) && t.node == elm
      modifies `root, mem`links
      ensures At(mem.links, p', t', root) && RbInsert.RedFocus(p', t', h') && t'.node == elm'
      ensures var p := In(In(up, Right, gparent, Black, u), sp, parent, Red, sib);
        SameOrder(p, t, p', t') && Depth(p') < Depth(p) && Only(old(mem.links), mem.links, Foot(p, t))
    {
      hide Rep, RepPath, Ok, PathOk, Nodes, PathNodes, InOrder, Plug;
      ghost var s, pg := mem.links, In(up, Right, gparent, Black, u);
      ghost var p := In(pg, sp, parent, Red, sib);
      RbInsert.LoopReads(s, p, t, h, root);
      var tmp := mem.links[gparent].left;
      if tmp != NULL && mem.links[tmp].color == Red {
        RbInsert.RecolorMemory(s, up, Right, gparent, u, sp, parent, sib, t, root);
        RbInsert.RecolorTree(up, Right, gparent, u, sp, parent, sib, t, h);
        mem.SetColor(tmp, Black);
        mem.SetColor(parent, Black);
        mem.SetColor(gparent, Red);
        return gparent, up, Join(Right, Join(sp, t, parent, Black, sib), gparent, Red, u.(color := Black)), h + 1;
      }
      if mem.links[parent].left == elm {
        RbInsert.InnerMemory(s, pg, Right, parent, sib, t.right, elm, t.left, root);
        RbInsert.InnerTree(pg, Right, parent, sib, t.right, elm, t.left, h);
        var _ := RotateRight(parent);
        ghost var p1, t1 := In(pg, Right, elm, Red, t.left), Join(Right, sib, parent, Red, t.right);
        FootMembers(p, t);
        FootMembers(p1, t1);
        p' := InsertOuterRight(elm, gparent, up, u, t.left, t1, h);
        elm', t', h' := parent, t1, h;
      } else {
        p' := InsertOuterRight(parent, gparent, up, u, sib, t, h);
        elm', t', h' := elm, t, h;
      }
    }

    /** RB_INSERT_COLOR: restores the colors above the red subtree t at elm. */
    method InsertColor(elm: Ptr, ghost p: Path, ghost t: Tree, ghost h: nat)
      requires At(mem.links, p, t, root) && RbInsert.RedFocus(p, t, h) && t.node == elm
      modifies this, mem`links
      ensures At(mem.links, Top, tree, root) && Ok(tree, BlackHeight(tree)) && !IsRed(tree)
      ensures InOrder(tree) == InOrder(Plug(p, t))
      ensures Only(old(mem.links), mem.links, Foot(p, t))
    {
      hide Rep, RepPath, Ok, PathOk, Nodes, PathNodes, InOrder, Plug;
      ReadFocus(mem.links, p, t, root);
      var elm, parent := elm, mem.links[elm].parent;
      ghost var p', t', h' := p, t, h;
      ghost var order := InOrder(Plug(p, t));
      FootMembers(p, t);
      while parent != NULL && mem.links[parent].color == Red
        invariant At(mem.links, p', t', root) && RbInsert.RedFocus(p', t', h') && t'.node == elm
        invariant elm in mem.links && parent == mem.links[elm].parent
        invariant parent == Holder(p')
        invariant (p'.In? ==> parent != NULL && parent in mem.links && mem.links[parent].color == p'.color)
        invariant InOrder(Plug(p', t')) == order
        invariant Only(old(mem.links), mem.links, Members(order))
        decreases Depth(p')
      {
        ghost var pg := p'.up;
        RbInsert.LoopReads(mem.links, p', t', h', root);
        FootMembers(p', t');
        var gparent := mem.links[parent].parent;
        if parent == mem.links[gparent].left {
          elm, p', t', h' := InsertTurnLeft(elm, parent, gparent, pg.up, pg.sib, p'.side, p'.sib, t', h');
        } else {
          elm, p', t', h' := InsertTurnRight(elm, parent, gparent, pg.up, pg.sib, p'.side, p'.sib, t', h');
        }
        ReadFocus(mem.links, p', t', root);
        parent := mem.links[elm].parent;
      }
      FootMembers(p', t');
      OkWeak(t', h');
      BlackRoot(mem.links, p', t', h', root);
      mem.SetColor(root, Black);
      tree := Blackened(Plug(p', t'));
    }

    /** RB_FIND. */
    method Find(k: CStr) returns (found: Ptr)
      requires Valid()
      ensures found != NULL <==> HasKey(InOrder(tree), k, mem.pathname)
      ensures found != NULL ==> found in InOrder(tree) && mem.pathname[found] == k
    {
      hide Rep, RepPath, Ok, PathOk, Nodes, PathNodes, InOrder, Plug, Sorted;
      found := root;
      ghost var p, t := Top, tree;
      TopPath(tree, k, mem.pathname);
      Down(mem.links, p, t, root);
      while found != NULL
        invariant At(mem.links, p, t, root) && found == Root(t) && (found == NULL <==> t.Leaf?)
        invariant Plug(p, t) == tree && OnPath(p, k, mem.pathname)
        decreases t
      {
        Down(mem.links, p, t, root);
        Descend(p, t, k, mem.pathname);
        var comp := Strcmp(k, mem.pathname[found]);
        if comp < 0 {
          found, p, t := mem.links[found].left, GoLeft(p, t), t.left;
        } else if comp > 0 {
          found, p, t := mem.links[found].right, GoRight(p, t), t.right;
        } else {
          return;
        }
        Down(mem.links, p, t, root);
      }
      DescentEnds(p, k, mem.pathname);
    }

    /** RB_NFIND. */
    method NFind(k: CStr) returns (res: Ptr)
      requires Valid()
      ensures IsFirstNotBelow(InOrder(tree), k, mem.pathname, res)
    {
      hide Rep, RepPath, Ok, PathOk, Nodes, PathNodes, InOrder, Plug, Sorted, IsFirstNotBelow;
      var tmp := root;
      res := NULL;
      ghost var p, t := Top, tree;
      TopPath(tree, k, mem.pathname);
      Down(mem.links, p, t, root);
      while tmp != NULL
        invariant At(mem.links, p, t, root) && tmp == Root(t) && (tmp == NULL <==> t.Leaf?)
        invariant Plug(p, t) == tree && OnPath(p, k, mem.pathname)
        invariant res == if After(p) == [] then NULL else After(p)[0]
        decreases t
      {
        Down(mem.links, p, t, root);
        Descend(p, t, k, mem.pathname);
        var comp := Strcmp(k, mem.pathname[tmp]);
        if comp < 0 {
          res := tmp;
          tmp, p, t := mem.links[tmp].left, GoLeft(p, t), t.left;
        } else if comp > 0 {
          tmp, p, t := mem.links[tmp].right, GoRight(p, t), t.right;
        } else {
          FoundIsFirst(p, t, k, mem.pathname);
          return tmp;
        }
        Down(mem.links, p, t, root);
      }
      NoNull(mem.links, tree, NULL);
      AfterIsFirst(p, k, mem.pathname);
    }

    /** RB_MINMAX. */
    method MinMax(val: int) returns (parent: Ptr)
      requires Valid()
      ensures parent == if val < 0 then FirstOf(InOrder(tree)) else LastOf(InOrder(tree))
    {
      hide Rep, RepPath, Ok, PathOk, Nodes, PathNodes, InOrder, Plug, Sorted, After, Before, FirstOf, LastOf;
      var tmp := root;
      parent := NULL;
      ghost var p, t := Top, tree;
      TopPath(tree, [], mem.pathname);
      Down(mem.links, p, t, root);
      Ends(tree);
      while tmp != NULL
        invariant At(mem.links, p, t, root) && tmp == Root(t) && (tmp == NULL <==> t.Leaf?)
        invariant parent == Holder(p)
        invariant val < 0 ==> FirstOf(InOrder(t) + After(p)) == FirstOf(InOrder(tree))
        invariant val >= 0 ==> LastOf(Before(p) + InOrder(t)) == LastOf(InOrder(tree))
        invariant p.In? ==> p.side == (if val < 0 then Left else Right)
        decreases t
      {
        WalkDown(p, t);
        Down(mem.links, p, t, root);
        parent := tmp;
        if val < 0 {
          tmp, p, t := mem.links[tmp].left, GoLeft(p, t), t.left;
        } else {
          tmp, p, t := mem.links[tmp].right, GoRight(p, t), t.right;
        }
        Down(mem.links, p, t, root);
      }
      WalkUp(p);
      NoneOf();
      AtEnd(p, t);
    }

    /** RB_NEXT. */
    method Next(elm: Ptr) returns (r: Ptr)
      requires Valid() && elm in InOrder(tree)
      ensures Follows(InOrder(tree), elm, r)
    {
      hide Rep, RepPath, Ok, PathOk, Nodes, PathNodes, InOrder, Plug, Sorted, After, Before, Follows, Precedes,
        FirstOf, LastOf;
      ghost var p, t := Locate(Top, tree, elm);
      TopPath(tree, [], mem.pathname);
      AtPlug(mem.links, p, t, root);
      Down(mem.links, p, t, root);
      LeafRoots(mem.links, p, t, root);
      Neighbourhood(p, t, tree, mem.pathname);
      ghost var q, u := p, t;
      r := elm;
      if mem.links[r].right != NULL {
        ghost var want := FirstOf(InOrder(t.right) + After(p));
        r, q, u := mem.links[r].right, GoRight(p, t), t.right;
        Down(mem.links, q, u, root);
        LeafRoots(mem.links, q, u, root);
        while mem.links[r].left != NULL
          invariant At(mem.links, q, u, root) && u.Br? && u.node == r && r in mem.links
          invariant mem.links[r].left == Root(u.left) && (Root(u.left) == NULL <==> u.left.Leaf?)
          invariant FirstOf(InOrder(u) + After(q)) == want
          decreases u
        {
          WalkDown(q, u);
          Down(mem.links, q, u, root);
          r, q, u := mem.links[r].left, GoLeft(q, u), u.left;
          Down(mem.links, q, u, root);
          LeafRoots(mem.links, q, u, root);
        }
        WalkDown(q, u);
      } else {
        ghost var want := FirstOf(After(p));
        WalkUp(q);
        Ascend(mem.links, q, u, root);
        if mem.links[r].parent != NULL && r == mem.links[mem.links[r].parent].left {
          r := mem.links[r].parent;
        } else {
          while mem.links[r].parent != NULL && r == mem.links[mem.links[r].parent].right
            invariant At(mem.links, q, u, root) && u.Br? && u.node == r && r in mem.links
            invariant mem.links[r].parent != NULL ==> mem.links[r].parent in mem.links
            invariant FirstOf(After(q)) == want
            decreases Depth(q)
          {
            Ascend(mem.links, q, u, root);
            WalkUp(q);
            r, q, u := mem.links[r].parent, q.up, Join(q.side, u, q.node, q.color, q.sib);
            Ascend(mem.links, q, u, root);
          }
          Ascend(mem.links, q, u, root);
          WalkUp(q);
          NoneOf();
          r := mem.links[r].parent;
        }
      }
    }

    /** RB_PREV. */
    method Prev(elm: Ptr) returns (r: Ptr)
      requires Valid() && elm in InOrder(tree)
      ensures Precedes(InOrder(tree), elm, r)
    {
      hide Rep, RepPath, Ok, PathOk, Nodes, PathNodes, InOrder, Plug, Sorted, After, Before, Follows, Precedes,
        FirstOf, LastOf;
      ghost var p, t := Locate(Top, tree, elm);
      TopPath(tree, [], mem.pathname);
      AtPlug(mem.links, p, t, root);
      Down(mem.links, p, t, root);
      LeafRoots(mem.links, p, t, root);
      Neighbourhood(p, t, tree, mem.pathname);
      ghost var q, u := p, t;
      r := elm;
      if mem.links[r].left != NULL {
        ghost var want := LastOf(Before(p) + InOrder(t.left));
        r, q, u := mem.links[r].left, GoLeft(p, t), t.left;
        Down(mem.links, q, u, root);
        LeafRoots(mem.links, q, u, root);
        while mem.links[r].right != NULL
          invariant At(mem.links, q, u, root) && u.Br? && u.node == r && r in mem.links
          invariant mem.links[r].right == Root(u.right) && (Root(u.right) == NULL <==> u.right.Leaf?)
          invariant LastOf(Before(q) + InOrder(u)) == want
          decreases u
        {
          WalkDown(q, u);
          Down(mem.links, q, u, root);
          r, q, u := mem.links[r].right, GoRight(q, u), u.right;
          Down(mem.links, q, u, root);
          LeafRoots(mem.links, q, u, root);
        }
        WalkDown(q, u);
      } else {
        ghost var want := LastOf(Before(p));
        WalkUp(q);
        Ascend(mem.links, q, u, root);
        if mem.links[r].parent != NULL && r == mem.links[mem.links[r].parent].right {
          r := mem.links[r].parent;
        } else {
          while mem.links[r].parent != NULL && r == mem.links[mem.links[r].parent].left
            invariant At(mem.links, q, u, root) && u.Br? && u.node == r && r in mem.links
            invariant mem.links[r].parent != NULL ==> mem.links[r].parent in mem.links
            invariant LastOf(Before(q)) == want
            decreases Depth(q)
          {
            Ascend(mem.links, q, u, root);
            WalkUp(q);
            r, q, u := mem.links[r].parent, q.up, Join(q.side, u, q.node, q.color, q.sib);
            Ascend(mem.links, q, u, root);
          }
          Ascend(mem.links, q, u, root);
          WalkUp(q);
          NoneOf();
          r := mem.links[r].parent;
        }
      }
    }

    /** RB_INSERT: links elm in unless its key is there already. */
    method Insert(elm: Ptr) returns (existing: Ptr)
      requires Valid() && elm != NULL && elm in mem.links && elm in mem.pathname && elm !in InOrder(tree)
      modifies this, mem`links
      ensures Valid()
      ensures existing == NULL <==> !old(HasKey(InOrder(tree), mem.pathname[elm], mem.pathname))
      ensures existing == NULL ==> Members(InOrder(tree)) == old(Members(InOrder(tree))) + {elm}
      ensures existing == NULL ==> |InOrder(tree)| == |old(InOrder(tree))| + 1
      ensures existing != NULL ==> existing in InOrder(tree) && mem.pathname[existing] == mem.pathname[elm]
      ensures existing != NULL ==> tree == old(tree) && root == old(root) && mem.links == old(mem.links)
      ensures Only(old(mem.links), mem.links, Members(InOrder(tree)))
    {
      hide Rep, RepPath, Ok, PathOk, Nodes, PathNodes, InOrder, Plug, Sorted;
      var tmp, parent, comp := root, NULL, 0;
      ghost var p, t := Top, tree;
      ghost var k := mem.pathname[elm];
      TopPath(tree, k, mem.pathname);
      Down(mem.links, p, t, root);
      while tmp != NULL
        invariant At(mem.links, p, t, root) && tmp == Root(t) && (tmp == NULL <==> t.Leaf?)
        invariant Plug(p, t) == tree && OnPath(p, k, mem.pathname)
        invariant Valid() && tree == old(tree) && root == old(root) && mem.links == old(mem.links)
        invariant parent == Holder(p)
        invariant (p.In? ==> parent != NULL && parent in mem.links && (comp < 0 <==> p.side == Left))
        decreases t
      {
        Down(mem.links, p, t, root);
        Descend(p, t, k, mem.pathname);
        parent := tmp;
        comp := Strcmp(mem.pathname[elm], mem.pathname[parent]);
        if comp < 0 {
          tmp, p, t := mem.links[tmp].left, GoLeft(p, t), t.left;
        } else if comp > 0 {
          tmp, p, t := mem.links[tmp].right, GoRight(p, t), t.right;
        } else {
          return tmp;
        }
        Down(mem.links, p, t, root);
      }
      DescentEnds(p, k, mem.pathname);
      Attach(elm, parent, comp, p);
      return NULL;
    }

    /** The end of RB_INSERT: elm becomes a red leaf below parent, and the fix-up runs. */
    method Attach(elm: Ptr, parent: Ptr, comp: int, ghost p: Path)
      requires Valid() && elm != NULL && elm in mem.links && elm in mem.pathname && elm !in InOrder(tree)
      requires At(mem.links, p, Leaf, root) && Plug(p, Leaf) == tree && OnPath(p, mem.pathname[elm], mem.pathname)
      requires parent == Holder(p)
      requires (p.In? ==> parent != NULL && parent in mem.links && (comp < 0 <==> p.side == Left))
      modifies this, mem`links
      ensures Valid()
      ensures Members(InOrder(tree)) == old(Members(InOrder(tree))) + {elm}
      ensures |InOrder(tree)| == |old(InOrder(tree))| + 1
      ensures Only(old(mem.links), mem.links, Members(InOrder(tree)))
    {
      hide Rep, RepPath, Ok, PathOk, Nodes, PathNodes, InOrder, Plug, Sorted;
      DescentEnds(p, mem.pathname[elm], mem.pathname);
      BelongsThere(p, elm, Red, mem.pathname);
      FootMembers(p, Leaf);
      AttachedAt(mem.links, p, elm, root);
      AttachedOk(p, elm, tree);
      mem.links := mem.links[elm := Links(NULL, NULL, parent, Red)];
      if parent != NULL {
        if comp < 0 {
          mem.SetLeft(parent, elm);
        } else {
          mem.SetRight(parent, elm);
        }
      } else {
        root := elm;
      }
      ghost var leaf := Br(Leaf, elm, Red, Leaf);
      FootMembers(p, leaf);
      InsertColor(elm, p, leaf, 0);
      assert Members(InOrder(tree)) == old(Members(InOrder(tree))) + {elm};
    }

    /** Deletion fix-up, elm on the left: a red sibling is rotated above the parent. */
    method RemoveRedSiblingLeft(parent: Ptr, ghost p: Path, ghost t: Tree, ghost h: nat)
      returns (tmp: Ptr, ghost p': Path)
      requires At(mem.links, p, t, root) && RbRemove.ShortFocus(p, t, h)
      requires p.In? && p.side == Left && p.node == parent
      modifies `root, mem`links
      ensures At(mem.links, p', t, root) && RbRemove.ShortFocus(p', t, h)
      ensures p'.In? && p'.side == Left && p'.node == parent && Root(p'.sib) == tmp && !IsRed(p'.sib)
      ensures p' == p || PathRed(p')
      ensures SameOrder(p, t, p', t) && Only(old(mem.links), mem.links, Foot(p, t))
    {
      hide Rep, RepPath, Ok, PathOk, Nodes, PathNodes, InOrder, Plug, Weak;
      RbRemove.LoopReads(mem.links, p, t, h, root);
      tmp, p' := mem.links[parent].right, p;
      if mem.links[tmp].color == Red {
        ghost var up, b, d := p.up, p.sib.left, p.sib.right;
        RbRemove.RedSiblingMemory(mem.links, up, Left, parent, t, b, tmp, d, root);
        RbRemove.RedSiblingTree(up, Left, parent, t, b, tmp, d, h);
        mem.SetColor(tmp, Black);
        mem.SetColor(parent, Red);
        var _ := RotateLeft(parent);
        p' := In(In(up, Left, tmp, Black, d), Left, parent, Red, b);
        RbRemove.LoopReads(mem.links, p', t, h, root);
        tmp := mem.links[parent].right;
      }
    }

    /** Deletion fix-up, elm on the left: the sibling lends its near red child's place. */
    method RemoveNearNephewLeft(parent: Ptr, tmp: Ptr, ghost p: Path, ghost t: Tree, ghost h: nat)
      returns (tmp': Ptr, ghost p': Path)
      requires At(mem.links, p, t, root) && RbRemove.ShortFocus(p, t, h)
      requires p.In? && p.side == Left && p.node == parent && p.sib.Br? && p.sib.node == tmp
      requires p.sib.color == Black && IsRed(p.sib.left) && !IsRed(p.sib.right)
      modifies `root, mem`links
      ensures At(mem.links, p', t, root) && RbRemove.ShortFocus(p', t, h)
      ensures p'.In? && p'.side == Left && p'.node == parent && p'.color == p.color && p'.up == p.up
      ensures p'.sib.Br? && p'.sib.node == tmp' && p'.sib.color == Black && IsRed(p'.sib.right)
      ensures SameOrder(p, t, p', t) && Only(old(mem.links), mem.links, Foot(p, t))
    {
      hide Rep, RepPath, Ok, PathOk, Nodes, PathNodes, InOrder, Plug, Weak;
      RbRemove.LoopReads(mem.links, p, t, h, root);
      ghost var b, d := p.sib.left, p.sib.right;
      RbRemove.NearNephewMemory(mem.links, p.up, Left, parent, p.color, t, b.left, b.node, b.right, tmp, d, root);
      RbRemove.NearNephewTree(p.up, Left, parent, p.color, t, b.left, b.node, b.right, tmp, d, h);
      RbRemove.NearNephewFoot(p.up, Left, parent, p.color, t, b.left, b.node, b.right, tmp, d);
      var oleft := mem.links[tmp].left;
      if oleft != NULL {
        mem.SetColor(oleft, Black);
      }
      mem.SetColor(tmp, Red);
      var _ := RotateRight(tmp);
      p' := In(p.up, Left, parent, p.color, Join(Left, b.left, b.node, Black, Join(Left, b.right, tmp, Red, d)));
      RbRemove.LoopReads(mem.links, p', t, h, root);
      tmp' := mem.links[parent].right;
    }

    /** Before the last rotation of the deletion fix-up: far is the child of tmp away from elm. */
    method PaintFar(parent: Ptr, tmp: Ptr, far: Ptr)
      requires parent in mem.links && tmp in mem.links && (far != NULL ==> far in mem.links)
      modifies mem`links
      ensures var painted := Recolored(Recolored(old(mem.links), tmp, old(mem.links)[parent].color), parent, Black);
        mem.links == if far != NULL then Recolored(painted, far, Black) else painted
    {
      mem.SetColor(tmp, mem.links[parent].color);
      mem.SetColor(parent, Black);
      if far != NULL {
        mem.SetColor(far, Black);
      }
    }

    /** Deletion fix-up, elm on the left: the far red child pays for the missing black node. */
    method RemoveFarNephewLeft(parent: Ptr, tmp: Ptr, ghost p: Path, ghost t: Tree, ghost h: nat)
      returns (ghost t': Tree, ghost h': nat)
      requires At(mem.links, p, t, root) && RbRemove.ShortFocus(p, t, h) && !IsRed(t)
      requires p.In? && p.side == Left && p.node == parent && p.sib.Br? && p.sib.node == tmp
      requires p.sib.color == Black && IsRed(p.sib.right)
      modifies `root, mem`links
      ensures At(mem.links, p.up, t', root) && t'.Br? && Ok(t', h') && PathOk(p.up, h')
      ensures IsRed(t') ==> p.up.In? && !PathRed(p.up)
      ensures SameOrder(p, t, p.up, t') && Only(old(mem.links), mem.links, Foot(p, t))
    {
      hide Rep, RepPath, Ok, PathOk, Nodes, PathNodes, InOrder, Plug, Weak, At, Foot, SameOrder,
        RbRemove.ShortFocus;
      RbRemove.LoopReads(mem.links, p, t, h, root);
      ghost var up, c, b, d := p.up, p.color, p.sib.left, p.sib.right;
      RbRemove.FarNephewMemory(mem.links, up, Left, parent, c, t, b, tmp, d, root);
      RbRemove.FarNephewTree(up, Left, parent, c, t, b, tmp, d, h);
      PaintFar(parent, tmp, mem.links[tmp].right);
      var _ := RotateLeft(parent);
      t' := Join(Left, Join(Left, t, parent, Black, b), tmp, c, d.(color := Black));
      h' := if c == Black then h + 2 else h + 1;
    }

    /** One turn of the deletion fix-up when elm is parent's left child. */
    method RemoveTurnLeft(parent: Ptr, ghost p: Path, ghost t: Tree, ghost h: nat)
      returns (done: bool, ghost p': Path, ghost t': Tree, ghost h': nat)
      requires At(mem.links, p, t, root) && RbRemove.ShortFocus(p, t, h) && !IsRed(t)
      requires p.In? && p.side == Left && p.node == parent
      modifies `root, mem`links
      ensures At(mem.links, p', t', root) && t'.Br?
      ensures done ==> Ok(t', h') && PathOk(p', h') && (IsRed(t') ==> p'.In? && !PathRed(p'))
      ensures !done ==> RbRemove.ShortFocus(p', t', h') && t'.node == parent && (IsRed(t') || Depth(p') < Depth(p))
      ensures SameOrder(p, t, p', t') && Only(old(mem.links), mem.links, Foot(p, t))
    {
      hide Rep, RepPath, Ok, PathOk, Nodes, PathNodes, InOrder, Plug, Weak;
      var tmp;
      tmp, p' := RemoveRedSiblingLeft(parent, p, t, h);
      FootMembers(p, t);
      FootMembers(p', t);
      RbRemove.LoopReads(mem.links, p', t, h, root);
      var le, ri := mem.links[tmp].left, mem.links[tmp].right;
      if (le == NULL || mem.links[le].color == Black) && (ri == NULL || mem.links[ri].color == Black) {
        RbRemove.BlackNephewsMemory(mem.links, p'.up, Left, parent, p'.color, t, p'.sib, root);
        RbRemove.BlackNephewsTree(p'.up, Left, parent, p'.color, t, p'.sib, h);
        mem.SetColor(tmp, Red);
        done, t', h' :=
          false, Join(Left, t, parent, p'.color, p'.sib.(color := Red)), if p'.color == Black then h + 1 else h;
        p' := p'.up;
      } else {
        if mem.links[tmp].right == NULL || mem.links[mem.links[tmp].right].color == Black {
          tmp, p' := RemoveNearNephewLeft(parent, tmp, p', t, h);
          FootMembers(p', t);
        }
        t', h' := RemoveFarNephewLeft(parent, tmp, p', t, h);
        done, p' := true, p'.up;
      }
    }

    /** Deletion fix-up, elm on the right: a red sibling is rotated above the parent. */
    method RemoveRedSiblingRight(parent: Ptr, ghost p: Path, ghost t: Tree, ghost h: nat)
      returns (tmp: Ptr, ghost p': Path)
      requires At(mem.links, p, t, root) && RbRemove.ShortFocus(p, t, h)
      requires p.In? && p.side == Right && p.node == parent
      modifies `root, mem`links
      ensures At(mem.links, p', t, root) && RbRemove.ShortFocus(p', t, h)
      ensures p'.In? && p'.side == Right && p'.node == parent && Root(p'.sib) == tmp && !IsRed(p'.sib)
      ensures p' == p || PathRed(p')
      ensures SameOrder(p, t, p', t) && Only(old(mem.links), mem.links, Foot(p, t))
    {
      hide Rep, RepPath, Ok, PathOk, Nodes, PathNodes, InOrder, Plug, Weak;
      RbRemove.LoopReads(mem.links, p, t, h, root);
      tmp, p' := mem.links[parent].left, p;
      if mem.links[tmp].color == Red {
        ghost var up, b, d := p.up, p.sib.right, p.sib.left;
        RbRemove.RedSiblingMemory(mem.links, up, Right, parent, t, b, tmp, d, root);
        RbRemove.RedSiblingTree(up, Right, parent, t, b, tmp, d, h);
        mem.SetColor(tmp, Black);
        mem.SetColor(parent, Red);
        var _ := RotateRight(parent);
        p' := In(In(up, Right, tmp, Black, d), Right, parent, Red, b);
        RbRemove.LoopReads(mem.links, p', t, h, root);
        tmp := mem.links[parent].left;
      }
    }

    /** Deletion fix-up, elm on the right: the sibling lends its near red child's place. */
    method RemoveNearNephewRight(parent: Ptr, tmp: Ptr, ghost p: Path, ghost t: Tree, ghost h: nat)
      returns (tmp': Ptr, ghost p': Path)
      requires At(mem.links, p, t, root) && RbRemove.ShortFocus(p, t, h)
      requires p.In? && p.side == Right && p.node == parent && p.sib.Br? && p.sib.node == tmp
      requires p.sib.color == Black && IsRed(p.sib.right) && !IsRed(p.sib.left)
      modifies `root, mem`links
      ensures At(mem.links, p', t, root) && RbRemove.ShortFocus(p', t, h)
      ensures p'.In? && p'.side == Right && p'.node == parent && p'.color == p.color && p'.up == p.up
      ensures p'.sib.Br? && p'.sib.node == tmp' && p'.sib.color == Black && IsRed(p'.sib.left)
      ensures SameOrder(p, t, p', t) && Only(old(mem.links), mem.links, Foot(p, t))
    {
      hide Rep, RepPath, Ok, PathOk, Nodes, PathNodes, InOrder, Plug, Weak;
      RbRemove.LoopReads(mem.links, p, t, h, root);
      ghost var b, d := p.sib.right, p.sib.left;
      RbRemove.NearNephewMemory(mem.links, p.up, Right, parent, p.color, t, b.right, b.node, b.left, tmp, d, root);
      RbRemove.NearNephewTree(p.up, Right, parent, p.color, t, b.right, b.node, b.left, tmp, d, h);
      RbRemove.NearNephewFoot(p.up, Right, parent, p.color, t, b.right, b.node, b.left, tmp, d);
      var oright := mem.links[tmp].right;
      if oright != NULL {
        mem.SetColor(oright, Black);
      }
      mem.SetColor(tmp, Red);
      var _ := RotateLeft(tmp);
      p' := In(p.up, Right, parent, p.color, Join(Right, b.right, b.node, Black, Join(Right, b.left, tmp, Red, d)));
      RbRemove.LoopReads(mem.links, p', t, h, root);
      tmp' := mem.links[parent].left;
    }

    /** Deletion fix-up, elm on the right: the far red child pays for the missing black node. */
    method RemoveFarNephewRight(parent: Ptr, tmp: Ptr, ghost p: Path, ghost t: Tree, ghost h: nat)
      returns (ghost t': Tree, ghost h': nat)
      requires At(mem.links, p, t, root) && RbRemove.ShortFocus(p, t, h) && !IsRed(t)
      requires p.In? && p.side == Right && p.node == parent && p.sib.Br? && p.sib.node == tmp
      requires p.sib.color == Black && IsRed(p.sib.left)
      modifies `root, mem`links
      ensures At(mem.links, p.up, t', root) && t'.Br? && Ok(t', h') && PathOk(p.up, h')
      ensures IsRed(t') ==> p.up.In? && !PathRed(p.up)
      ensures SameOrder(p, t, p.up, t') && Only(old(mem.links), mem.links, Foot(p, t))
    {
      hide Rep, RepPath, Ok, PathOk, Nodes, PathNodes, InOrder, Plug, Weak, At, Foot, SameOrder,
        RbRemove.ShortFocus;
      RbRemove.LoopReads(mem.links, p, t, h, root);
      ghost var up, c, b, d := p.up, p.color, p.sib.right, p.sib.left;
      RbRemove.FarNephewMemory(mem.links, up, Right, parent, c, t, b, tmp, d, root);
      RbRemove.FarNephewTree(up, Right, parent, c, t, b, tmp, d, h);
      PaintFar(parent, tmp, mem.links[tmp].left);
      var _ := RotateRight(parent);
      t' := Join(Right, Join(Right, t, parent, Black, b), tmp, c, d.(color := Black));
      h' := if c == Black then h + 2 else h + 1;
    }

    /** One turn of the deletion fix-up when elm is parent's right child. */
    method RemoveTurnRight(parent: Ptr, ghost p: Path, ghost t: Tree, ghost h: nat)
      returns (done: bool, ghost p': Path, ghost t': Tree, ghost h': nat)
      requires At(mem.links, p, t, root) && RbRemove.ShortFocus(p, t, h) && !IsRed(t)
      requires p.In? && p.side == Right && p.node == parent
      modifies `root, mem`links
      ensures At(mem.links, p', t', root) && t'.Br?
      ensures done ==> Ok(t', h') && PathOk(p', h') && (IsRed(t') ==> p'.In? && !PathRed(p'))
      ensures !done ==> RbRemove.ShortFocus(p', t', h') && t'.node == parent && (IsRed(t') || Depth(p') < Depth(p))
      ensures SameOrder(p, t, p', t') && Only(old(mem.links), mem.links, Foot(p, t))
    {
      hide Rep, RepPath, Ok, PathOk, Nodes, PathNodes, InOrder, Plug, Weak;
      var tmp;
      tmp, p' := RemoveRedSiblingRight(parent, p, t, h);
      FootMembers(p, t);
      FootMembers(p', t);
      RbRemove.LoopReads(mem.links, p', t, h, root);
      var le, ri := mem.links[tmp].left, mem.links[tmp].right;
      if (le == NULL || mem.links[le].color == Black) && (ri == NULL || mem.links[ri].color == Black) {
        RbRemove.BlackNephewsMemory(mem.links, p'.up, Right, parent, p'.color, t, p'.sib, root);
        RbRemove.BlackNephewsTree(p'.up, Right, parent, p'.color, t, p'.sib, h);
        mem.SetColor(tmp, Red);
        done, t', h' :=
          false, Join(Right, t, parent, p'.color, p'.sib.(color := Red)), if p'.color == Black then h + 1 else h;
        p' := p'.up;
      } else {
        if mem.links[tmp].left == NULL || mem.links[mem.links[tmp].left].color == Black {
          tmp, p' := RemoveNearNephewRight(parent, tmp, p', t, h);
          FootMembers(p', t);
        }
        t', h' := RemoveFarNephewRight(parent, tmp, p', t, h);
        done, p' := true, p'.up;
      }
    }

    /** One turn of the deletion fix-up. */
    method RemoveTurn(parent: Ptr, elm: Ptr, ghost p: Path, ghost t: Tree, ghost h: nat)
      returns (done: bool, ghost p': Path, ghost t': Tree, ghost h': nat)
      requires At(mem.links, p, t, root) && RbRemove.ShortFocus(p, t, h) && !IsRed(t)
      requires elm == Root(t) && parent == Holder(p) && p.In?
      modifies `root, mem`links
      ensures At(mem.links, p', t', root) && t'.Br?
      ensures done ==> Ok(t', h') && PathOk(p', h') && (IsRed(t') ==> p'.In? && !PathRed(p'))
      ensures !done ==> RbRemove.ShortFocus(p', t', h') && t'.node == parent && (IsRed(t') || Depth(p') < Depth(p))
      ensures SameOrder(p, t, p', t') && Only(old(mem.links), mem.links, Foot(p, t))
    {
      hide Rep, RepPath, Ok, PathOk, Nodes, PathNodes, InOrder, Plug, Weak, At, Foot, SameOrder, RbRemove.ShortFocus;
      RbRemove.LoopReads(mem.links, p, t, h, root);
      if mem.links[parent].left == elm {
        done, p', t', h' := RemoveTurnLeft(parent, p, t, h);
      } else {
        done, p', t', h' := RemoveTurnRight(parent, p, t, h);
      }
    }

    /** RB_REMOVE_COLOR: restores the black heights above the subtree t at elm, which
        is one black node short. */
    method RemoveColor(parent: Ptr, elm: Ptr, ghost p: Path, ghost t: Tree, ghost h: nat)
      requires At(mem.links, p, t, root) && RbRemove.ShortFocus(p, t, h)
      requires elm == Root(t) && parent == Holder(p)
      modifies this, mem`links
      ensures At(mem.links, Top, tree, root) && Ok(tree, BlackHeight(tree)) && !IsRed(tree)
      ensures InOrder(tree) == InOrder(Plug(p, t))
      ensures Only(old(mem.links), mem.links, Foot(p, t))
    {
      hide Rep, RepPath, Ok, PathOk, Nodes, PathNodes, InOrder, Plug, Weak, At, Foot, RbRemove.ShortFocus;
      var parent, elm := parent, elm;
      ghost var p', t', h' := p, t, h;
      ghost var order, done := InOrder(Plug(p, t)), false;
      FootMembers(p, t);
      Down(mem.links, p', t', root);
      while (elm == NULL || mem.links[elm].color == Black) && elm != root
        invariant At(mem.links, p', t', root) && !done && RbRemove.ShortFocus(p', t', h')
        invariant elm == Root(t') && parent == Holder(p')
        invariant elm != NULL ==> elm in mem.links && mem.links[elm].color == t'.color
        invariant elm == NULL <==> t'.Leaf?
        invariant p'.Top? ==> elm == root
        invariant InOrder(Plug(p', t')) == order
        invariant Only(old(mem.links), mem.links, Members(order))
        decreases if IsRed(t') then 0 else 1 + Depth(p')
      {
        FootMembers(p', t');
        var done';
        done', p', t', h' := RemoveTurn(parent, elm, p', t', h');
        Down(mem.links, p', t', root);
        if done' {
          elm, done := root, true;
          break;
        }
        elm := parent;
        parent := mem.links[elm].parent;
      }
      FootMembers(p', t');
      if done {
        RbRemove.OkWeakTop(p', t', h');
        BlackRoot(mem.links, p', t', h', root);
        tree := Blackened(Plug(p', t'));
      } else {
        if p'.In? { ReadHolder(mem.links, p', t', root); }
        RbRemove.Finish(mem.links, p', t', h', root);
        tree := Plug(p', Blackened(t'));
      }
      if elm != NULL {
        mem.SetColor(elm, Black);
      }
    }

    /** The first half of RB_REMOVE for a record with at most one child. */
    method SpliceOut(elm: Ptr, ghost p: Path, ghost t: Tree)
      returns (color: Color, parent: Ptr, child: Ptr, ghost q: Path, ghost v: Tree, ghost h: nat)
      requires Valid() && At(mem.links, p, t, root) && Plug(p, t) == tree
      requires t.Br? && t.node == elm && (t.left.Leaf? || t.right.Leaf?)
      modifies this, mem`links
      ensures At(mem.links, q, v, root) && child == Root(v) && parent == Holder(q)
      ensures color == Black ==> RbRemove.ShortFocus(q, v, h)
      ensures color == Red ==> Ok(v, h) && PathOk(q, h) && !IsRed(v)
      ensures Erases(old(InOrder(tree)), elm, InOrder(Plug(q, v)))
      ensures q == p && OnlyChild(t.left, t.right, v) && tree == old(tree)
      ensures Only(old(mem.links), mem.links, old(Members(InOrder(tree)))) && mem.links[elm] == old(mem.links)[elm]
    {
      hide Rep, RepPath, Ok, PathOk, Nodes, PathNodes, InOrder, Plug, Weak, Sorted, Erases;
      Down(mem.links, p, t, root);
      if mem.links[elm].left == NULL {
        child, v := mem.links[elm].right, t.right;
      } else {
        child, v := mem.links[elm].left, t.left;
      }
      LeafRoots(mem.links, p, t, root);
      SplicedAt(mem.links, p, t.left, elm, t.color, t.right, v, root);
      SplicedOrder(p, t.left, elm, t.color, t.right, v);
      FootMembers(p, t);
      h := BlackHeight(t);
      UnplugOk(p, t, BlackHeight(tree));
      SplicedOk(p, t, v, h);
      parent := mem.links[elm].parent;
      color := mem.links[elm].color;
      if child != NULL {
        mem.SetParent(child, parent);
      }
      if parent != NULL {
        if mem.links[parent].left == elm {
          mem.SetLeft(parent, child);
        } else {
          mem.SetRight(parent, child);
        }
      } else {
        root := child;
      }
      q, h := p, if color == Black then h - 1 else h;
    }

    /** The successor of a record with two children: down one link to the right, then left. */
    method Successor(old': Ptr, ghost p: Path, ghost t: Tree) returns (elm: Ptr, ghost seg: Path, ghost u: Tree)
      requires At(mem.links, p, t, root) && t.Br? && t.node == old' && t.right.Br?
      ensures var q := Append(seg, GoRight(p, t));
        At(mem.links, q, u, root) && Plug(q, u) == Plug(p, t)
      ensures u.Br? && u.node == elm && u.left.Leaf? && Before(seg) == []
    {
      hide Rep, RepPath, Nodes, PathNodes, InOrder, Plug, Before, After, Append;
      Down(mem.links, p, t, root);
      elm := mem.links[old'].right;
      ghost var base, q := GoRight(p, t), GoRight(p, t);
      seg, u := Top, t.right;
      AppendTop(base);
      Down(mem.links, q, u, root);
      LeafRoots(mem.links, q, u, root);
      var left := mem.links[elm].left;
      while left != NULL
        invariant At(mem.links, q, u, root) && u.Br? && u.node == elm && elm in mem.links
        invariant left == Root(u.left) && (left == NULL <==> u.left.Leaf?)
        invariant q == Append(seg, base) && Before(seg) == [] && Plug(q, u) == Plug(p, t)
        decreases u
      {
        Down(mem.links, q, u, root);
        AppendLeft(seg, base, u);
        elm := left;
        q, seg, u := GoLeft(q, u), GoLeft(seg, u), u.left;
        Down(mem.links, q, u, root);
        LeafRoots(mem.links, q, u, root);
        left := mem.links[elm].left;
      }
    }

    /** (elm)->field = (old)->field, and every link to old leads to elm. */
    method TakePlace(old': Ptr, elm: Ptr)
      requires CanSubstitute(mem.links, old', elm)
      modifies `root, mem`links
      ensures mem.links == Substituted(old(mem.links), old', elm)
      ensures root == if old(mem.links)[old'].parent == NULL then elm else old(root)
    {
      mem.links := mem.links[elm := mem.links[old']];
      var above := mem.links[old'].parent;
      if above != NULL {
        if mem.links[above].left == old' {
          mem.SetLeft(above, elm);
        } else {
          mem.SetRight(above, elm);
        }
      } else {
        root := elm;
      }
      mem.SetParent(mem.links[old'].left, elm);
      if mem.links[old'].right != NULL {
        mem.SetParent(mem.links[old'].right, elm);
      }
    }

    /** The first half of RB_REMOVE for a record with two children: its successor leaves
        its own place and takes old''s. */
    method SpliceSuccessor(old': Ptr, ghost p: Path, ghost t: Tree)
      returns (color: Color, parent: Ptr, child: Ptr, ghost q': Path, ghost v: Tree, ghost h: nat)
      requires Valid() && At(mem.links, p, t, root) && Plug(p, t) == tree
      requires t.Br? && t.node == old' && t.left.Br? && t.right.Br?
      modifies this, mem`links
      ensures At(mem.links, q', v, root) && child == Root(v) && parent == Holder(q')
      ensures color == Black ==> RbRemove.ShortFocus(q', v, h)
      ensures color == Red ==> Ok(v, h) && PathOk(q', h) && !IsRed(v)
      ensures Erases(old(InOrder(tree)), old', InOrder(Plug(q', v)))
      ensures Only(old(mem.links), mem.links, old(Members(InOrder(tree))))
    {
      hide Rep, RepPath, Ok, PathOk, Nodes, PathNodes, InOrder, Plug, Weak, Sorted, Erases, Before, After, Append,
        Substituted;
      var elm;
      ghost var seg, u, q;
      elm, seg, u := Successor(old', p, t);
      ghost var l, c := t.left, t.color;
      Down(mem.links, Append(seg, GoRight(p, t)), u, root);
      ghost var s0, root0 := mem.links, root;
      color, parent, child, q, v, h := SpliceOut(elm, Append(seg, GoRight(p, t)), u);
      FootMembers(q, u);
      FootSplit(s0, q, u, v, root0);
      SuccessorAt(mem.links, p, l, old', c, seg, v, elm, root);
      SuccessorOrder(p, l, old', c, seg, u);
      AppendHolder(mem.links, seg, p, old', elm, c, l, v, root);
      AppendOk(seg, p, Right, old', elm, c, l, if color == Black then h + 1 else h);
      q' := Append(seg, In(p, Right, elm, c, l));
      if mem.links[elm].parent == old' {
        parent := elm;
      }
      TakePlace(old', elm);
    }

    /** RB_REMOVE: takes elm out of the tree. */
    method Remove(elm: Ptr) returns (removed: Ptr)
      requires Valid() && elm in InOrder(tree)
      modifies this, mem`links
      ensures Valid() && removed == elm
      ensures Erases(old(InOrder(tree)), elm, InOrder(tree))
      ensures Only(old(mem.links), mem.links, old(Members(InOrder(tree))))
    {
      hide Rep, RepPath, Ok, PathOk, Nodes, PathNodes, InOrder, Plug, Weak, Sorted, Erases;
      ghost var p, t := Locate(Top, tree, elm);
      TopPath(tree, [], mem.pathname);
      AtPlug(mem.links, p, t, root);
      Down(mem.links, p, t, root);
      LeafRoots(mem.links, p, t, root);
      var color, parent, child;
      ghost var q, v, h;
      if mem.links[elm].left == NULL || mem.links[elm].right == NULL {
        color, parent, child, q, v, h := SpliceOut(elm, p, t);
      } else {
        color, parent, child, q, v, h := SpliceSuccessor(elm, p, t);
      }
      FootMembers(q, v);
      ErasesMembers(old(InOrder(tree)), elm, InOrder(Plug(q, v)));
      SortedErases(old(InOrder(tree)), elm, InOrder(Plug(q, v)), mem.pathname);
      if color == Black {
        RemoveColor(parent, child, q, v, h);
      } else {
        tree := Plug(q, v);
        AtPlug(mem.links, q, v, root);
        PlugOk(q, v, h);
      }
      return elm;
    }
  }
}
