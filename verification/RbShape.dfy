/** The ghost side of xhook/tree.h: binary trees over the linked records, the path
    from the root to a subtree, and how both are laid out in the record fields. */
module RbShape {

  datatype Color = Black | Red

  datatype Side = Left | Right

  /** The address of a record; 0 is the null pointer. */
  type Ptr = nat

  const NULL: Ptr := 0

  /** The RB_ENTRY fields of one record. */
  datatype Links = Links(left: Ptr, right: Ptr, parent: Ptr, color: Color)

  /** The RB_ENTRY fields in memory, by record. */
  type Store = map<Ptr, Links>

  // ---------- trees ----------

  datatype Tree = Leaf | Br(left: Tree, node: Ptr, color: Color, right: Tree)

  ghost function Nodes(t: Tree): set<Ptr> {
    match t
    case Leaf => {}
    case Br(l, n, _, r) => Nodes(l) + {n} + Nodes(r)
  }

  ghost function InOrder(t: Tree): seq<Ptr> {
    match t
    case Leaf => []
    case Br(l, n, _, r) => InOrder(l) + [n] + InOrder(r)
  }

  ghost function Root(t: Tree): Ptr {
    if t.Leaf? then NULL else t.node
  }

  ghost predicate IsRed(t: Tree) {
    t.Br? && t.color == Red
  }

  /** t laid out in the store: every link, parent pointer and color agrees, and no
      record occurs twice. */
  ghost predicate Rep(s: Store, t: Tree, parent: Ptr) {
    match t
    case Leaf => true
    case Br(l, n, c, r) =>
      && n != NULL && n in s && s[n] == Links(Root(l), Root(r), parent, c)
      && n !in Nodes(l) && n !in Nodes(r) && Nodes(l) !! Nodes(r)
      && Rep(s, l, n) && Rep(s, r, n)
  }

  /** A red-black tree of black height h: equal black height on all paths and no
      red node with a red child. */
  ghost predicate Ok(t: Tree, h: nat) {
    match t
    case Leaf => h == 0
    case Br(l, _, Black, r) => h > 0 && Ok(l, h - 1) && Ok(r, h - 1)
    case Br(l, _, Red, r) => Ok(l, h) && Ok(r, h) && !IsRed(l) && !IsRed(r)
  }

  ghost function BlackHeight(t: Tree): nat {
    match t
    case Leaf => 0
    case Br(l, _, c, _) => BlackHeight(l) + (if c == Black then 1 else 0)
  }

  lemma {:induction false} OkHeight(t: Tree, h: nat)
    requires Ok(t, h)
    ensures h == BlackHeight(t)
  {
    match t
    case Leaf =>
    case Br(l, _, Black, _) => OkHeight(l, h - 1);
    case Br(l, _, Red, _) => OkHeight(l, h);
  }

  /** Ok except that a red root may have red children. */
  ghost predicate Weak(t: Tree, h: nat) {
    match t
    case Leaf => h == 0
    case Br(l, _, Black, r) => h > 0 && Ok(l, h - 1) && Ok(r, h - 1)
    case Br(l, _, Red, r) => Ok(l, h) && Ok(r, h)
  }

  lemma OkWeak(t: Tree, h: nat)
    requires Ok(t, h)
    ensures Weak(t, h)
  {
  }

  // ---------- paths ----------

  /** The way from a subtree up to the root. In(up, Left, n, c, sib) says that the
      hole is the left child of n, whose right subtree is sib. */
  datatype Path = Top | In(up: Path, side: Side, node: Ptr, color: Color, sib: Tree)

  ghost function Join(side: Side, hole: Tree, n: Ptr, c: Color, sib: Tree): Tree {
    if side == Left then Br(hole, n, c, sib) else Br(sib, n, c, hole)
  }

  function Other(side: Side): Side {
    if side == Left then Right else Left
  }

  function Child(side: Side, l: Links): Ptr {
    if side == Left then l.left else l.right
  }

  ghost function JoinLinks(side: Side, hole: Ptr, sib: Ptr, parent: Ptr, c: Color): Links {
    if side == Left then Links(hole, sib, parent, c) else Links(sib, hole, parent, c)
  }

  /** The whole tree: the path with t in its hole. */
  ghost function Plug(p: Path, t: Tree): Tree {
    match p
    case Top => t
    case In(up, side, n, c, sib) => Plug(up, Join(side, t, n, c, sib))
  }

  lemma OkJoin(side: Side, t: Tree, n: Ptr, c: Color, sib: Tree, h: nat)
    ensures Ok(Join(side, t, n, c, sib), h) <==>
            if c == Black then h > 0 && Ok(t, h - 1) && Ok(sib, h - 1)
            else Ok(t, h) && Ok(sib, h) && !IsRed(t) && !IsRed(sib)
  {
  }

  lemma NodesJoin(side: Side, t: Tree, n: Ptr, c: Color, sib: Tree)
    ensures Nodes(Join(side, t, n, c, sib)) == Nodes(t) + {n} + Nodes(sib)
  {
  }

  ghost function Depth(p: Path): nat {
    if p.Top? then 0 else 1 + Depth(p.up)
  }

  ghost function PathNodes(p: Path): set<Ptr> {
    match p
    case Top => {}
    case In(up, _, n, _, sib) => PathNodes(up) + {n} + Nodes(sib)
  }

  ghost function Before(p: Path): seq<Ptr> {
    match p
    case Top => []
    case In(up, Left, _, _, _) => Before(up)
    case In(up, Right, n, _, sib) => Before(up) + InOrder(sib) + [n]
  }

  ghost function After(p: Path): seq<Ptr> {
    match p
    case Top => []
    case In(up, Left, n, _, sib) => [n] + InOrder(sib) + After(up)
    case In(up, Right, _, _, _) => After(up)
  }

  /** All records of the tree with t in the hole of p. */
  ghost function Foot(p: Path, t: Tree): set<Ptr> {
    PathNodes(p) + Nodes(t)
  }

  ghost predicate PathRed(p: Path) {
    p.In? && p.color == Red
  }

  ghost function Holder(p: Path): Ptr {
    if p.Top? then NULL else p.node
  }

  /** p laid out in the store, with hole the pointer in its hole and root the
      pointer in the tree head. */
  ghost predicate RepPath(s: Store, p: Path, hole: Ptr, root: Ptr) {
    match p
    case Top => root == hole
    case In(up, side, n, c, sib) =>
      && n != NULL && n in s
      && s[n] == JoinLinks(side, hole, Root(sib), Holder(up), c)
      && n !in PathNodes(up) && n !in Nodes(sib) && PathNodes(up) !! Nodes(sib)
      && Rep(s, sib, n)
      && RepPath(s, up, n, root)
  }

  /** A subtree of black height h fits the hole: the path is red-black and, at its
      top, black. */
  ghost predicate PathOk(p: Path, h: nat) {
    match p
    case Top => true
    case In(up, _, _, Black, sib) => Ok(sib, h) && PathOk(up, h + 1)
    case In(up, _, _, Red, sib) =>
      Ok(sib, h) && !IsRed(sib) && up.In? && !PathRed(up) && PathOk(up, h)
  }

  /** The store holds the tree that has t in the hole of p. */
  ghost predicate At(s: Store, p: Path, t: Tree, root: Ptr) {
    && Rep(s, t, Holder(p))
    && RepPath(s, p, Root(t), root)
    && Nodes(t) !! PathNodes(p)
  }

  lemma {:induction false} PlugNodes(p: Path, t: Tree)
    ensures Nodes(Plug(p, t)) == PathNodes(p) + Nodes(t)
    decreases p
  {
    match p
    case Top =>
    case In(up, side, n, c, sib) => PlugNodes(up, Join(side, t, n, c, sib));
  }

  lemma {:induction false} PlugInOrder(p: Path, t: Tree)
    ensures InOrder(Plug(p, t)) == Before(p) + InOrder(t) + After(p)
    decreases p
  {
    match p
    case Top =>
    case In(up, side, n, c, sib) =>
      PlugInOrder(up, Join(side, t, n, c, sib));
  }

  /** Putting a fitting subtree in the hole gives a red-black tree with a black root. */
  lemma {:induction false} PlugOk(p: Path, t: Tree, h: nat)
    requires PathOk(p, h) && Ok(t, h)
    requires IsRed(t) ==> p.In? && !PathRed(p)
    ensures Ok(Plug(p, t), BlackHeight(Plug(p, t))) && !IsRed(Plug(p, t))
    decreases p
  {
    match p
    case Top => OkHeight(t, h);
    case In(up, side, n, c, sib) =>
      PlugOk(up, Join(side, t, n, c, sib), if c == Black then h + 1 else h);
  }

  lemma RepJoin(side: Side, s: Store, t: Tree, n: Ptr, c: Color, sib: Tree, parent: Ptr)
    ensures Rep(s, Join(side, t, n, c, sib), parent) <==>
            (&& n != NULL && n in s && s[n] == JoinLinks(side, Root(t), Root(sib), parent, c)
             && n !in Nodes(t) && n !in Nodes(sib) && Nodes(t) !! Nodes(sib)
             && Rep(s, t, n) && Rep(s, sib, n))
    ensures Nodes(Join(side, t, n, c, sib)) == Nodes(t) + {n} + Nodes(sib)
    ensures Root(Join(side, t, n, c, sib)) == n
  {
  }

  /** Moving the focus up to the holder of t, or down again, leaves memory as it is. */
  lemma Up(s: Store, up: Path, side: Side, n: Ptr, c: Color, sib: Tree, t: Tree, root: Ptr)
    ensures At(s, In(up, side, n, c, sib), t, root) <==> At(s, up, Join(side, t, n, c, sib), root)
  {
    RepJoin(side, s, t, n, c, sib, Holder(up));
  }

  /** Moving the focus to the sibling of t. */
  lemma Across(s: Store, up: Path, side: Side, n: Ptr, c: Color, sib: Tree, t: Tree, root: Ptr)
    ensures At(s, In(up, side, n, c, sib), t, root) <==> At(s, In(up, Other(side), n, c, t), sib, root)
  {
    Up(s, up, side, n, c, sib, t, root);
    Up(s, up, Other(side), n, c, t, sib, root);
  }

  /** The layout of a focus is the layout of the plugged tree. */
  lemma {:induction false} AtPlug(s: Store, p: Path, t: Tree, root: Ptr)
    ensures At(s, p, t, root) <==> At(s, Top, Plug(p, t), root)
    decreases p
  {
    match p
    case Top =>
    case In(up, side, n, c, sib) =>
      Up(s, up, side, n, c, sib, t, root);
      AtPlug(s, up, Join(side, t, n, c, sib), root);
  }

  lemma {:induction false} PathRoot(s: Store, p: Path, hole: Ptr, root: Ptr)
    requires RepPath(s, p, hole, root) && p.In?
    ensures root != NULL && root in PathNodes(p)
    decreases p
  {
    if p.up.In? { PathRoot(s, p.up, p.node, root); }
  }

  lemma FootUp(up: Path, side: Side, n: Ptr, c: Color, sib: Tree, t: Tree)
    ensures Foot(In(up, side, n, c, sib), t) == Foot(up, Join(side, t, n, c, sib))
  {
  }

  /** What the code can read at the focused record and its parent pointer. */
  lemma ReadFocus(s: Store, p: Path, t: Tree, root: Ptr)
    requires At(s, p, t, root)
    ensures t.Br? ==> t.node != NULL && t.node in s && s[t.node].parent == Holder(p) && s[t.node].color == t.color
    ensures t.Br? ==> s[t.node].left == Root(t.left) && s[t.node].right == Root(t.right)
    ensures p.In? ==> p.node != NULL && p.node in s && s[p.node].color == p.color
    ensures p.Top? ==> root == Root(t)
  {
  }

  lemma {:induction false} NoNull(s: Store, t: Tree, parent: Ptr)
    requires Rep(s, t, parent)
    ensures NULL !in InOrder(t)
  {
    if t.Br? {
      NoNull(s, t.left, t.node);
      NoNull(s, t.right, t.node);
    }
  }

  lemma LeafRoots(s: Store, p: Path, t: Tree, root: Ptr)
    requires At(s, p, t, root) && t.Br?
    ensures Root(t.left) == NULL <==> t.left.Leaf?
    ensures Root(t.right) == NULL <==> t.right.Leaf?
  {
    assert Rep(s, t.left, t.node) && Rep(s, t.right, t.node);
  }

  ghost function GoLeft(p: Path, t: Tree): Path
    requires t.Br?
  {
    In(p, Left, t.node, t.color, t.right)
  }

  ghost function GoRight(p: Path, t: Tree): Path
    requires t.Br?
  {
    In(p, Right, t.node, t.color, t.left)
  }

  /** Every focus in a red-black tree is a red-black subtree on a red-black path. */
  lemma {:induction false} UnplugOk(p: Path, t: Tree, h: nat)
    requires Ok(Plug(p, t), h) && !IsRed(Plug(p, t))
    ensures Ok(t, BlackHeight(t)) && PathOk(p, BlackHeight(t)) && (IsRed(t) ==> !PathRed(p) && p.In?)
    decreases p
  {
    match p
    case Top => OkHeight(t, h);
    case In(up, side, n, c, sib) =>
      var j := Join(side, t, n, c, sib);
      UnplugOk(up, j, h);
      var hh := if c == Black then BlackHeight(j) - 1 else BlackHeight(j);
      OkHeight(t, hh);
  }

  /** Following a child link moves the focus down in the same tree. */
  lemma Down(s: Store, p: Path, t: Tree, root: Ptr)
    requires At(s, p, t, root)
    ensures Root(t) == NULL <==> t.Leaf?
    ensures p.Top? ==> root == Root(t)
    ensures t.Br? ==>
      && t.node in s && s[t.node] == Links(Root(t.left), Root(t.right), Holder(p), t.color)
      && At(s, GoLeft(p, t), t.left, root) && Plug(GoLeft(p, t), t.left) == Plug(p, t)
      && At(s, GoRight(p, t), t.right, root) && Plug(GoRight(p, t), t.right) == Plug(p, t)
      && t.node in InOrder(Plug(p, t))
  {
    if t.Br? {
      Up(s, p, Left, t.node, t.color, t.right, t.left, root);
      Up(s, p, Right, t.node, t.color, t.left, t.right, root);
      PlugInOrder(p, t);
    }
  }

  /** What the code can read at the holder of the focused subtree. */
  lemma ReadHolder(s: Store, p: Path, t: Tree, root: Ptr)
    requires At(s, p, t, root) && p.In?
    ensures p.node != NULL && p.node in s && root != NULL
    ensures s[p.node].color == p.color && s[p.node].parent == Holder(p.up)
    ensures Child(p.side, s[p.node]) == Root(t) && Child(Other(p.side), s[p.node]) == Root(p.sib)
    ensures t.Br? ==>
      t.node != NULL && Root(p.sib) != t.node && t.node in s && s[t.node].parent == p.node && root != t.node
    ensures p.sib.Br? ==>
      p.sib.node != NULL && p.sib.node in s && s[p.sib.node].color == p.sib.color && Root(t) != p.sib.node
  {
    PathRoot(s, p, Root(t), root);
    assert Rep(s, p.sib, p.node);
  }

  // ---------- store updates ----------

  ghost predicate Agree(s: Store, s': Store, on: set<Ptr>) {
    forall n :: n in on && n in s ==> n in s' && s'[n] == s[n]
  }

  lemma {:induction false} RepFrame(s: Store, s': Store, t: Tree, parent: Ptr)
    requires Rep(s, t, parent) && Agree(s, s', Nodes(t))
    ensures Rep(s', t, parent)
  {
    if t.Br? {
      RepFrame(s, s', t.left, t.node);
      RepFrame(s, s', t.right, t.node);
    }
  }

  lemma {:induction false} RepPathFrame(s: Store, s': Store, p: Path, hole: Ptr, root: Ptr)
    requires RepPath(s, p, hole, root) && Agree(s, s', PathNodes(p))
    ensures RepPath(s', p, hole, root)
    decreases p
  {
    if p.In? {
      RepFrame(s, s', p.sib, p.node);
      RepPathFrame(s, s', p.up, p.node, root);
    }
  }

  /** Only the records in on differ. */
  ghost predicate Only(s: Store, s': Store, on: set<Ptr>) {
    s'.Keys == s.Keys && forall n :: n in s && n !in on ==> s'[n] == s[n]
  }

  ghost function Recolored(s: Store, n: Ptr, c: Color): Store
    requires n in s
  {
    s[n := s[n].(color := c)]
  }

  /** Recoloring the root of the focused subtree. */
  lemma RecoloredAt(s: Store, p: Path, t: Tree, c: Color, root: Ptr)
    requires At(s, p, t, root) && t.Br?
    ensures t.node in s && At(Recolored(s, t.node, c), p, t.(color := c), root)
  {
    var s' := Recolored(s, t.node, c);
    RepFrame(s, s', t.left, t.node);
    RepFrame(s, s', t.right, t.node);
    RepPathFrame(s, s', p, t.node, root);
  }

  /** if (ptr) RB_PARENT(ptr) = parent */
  ghost function Reparented(s: Store, ptr: Ptr, parent: Ptr): Store
    requires ptr == NULL || ptr in s
  {
    if ptr == NULL then s else s[ptr := s[ptr].(parent := parent)]
  }

  lemma ReparentedRep(s: Store, t: Tree, was: Ptr, parent: Ptr)
    requires Rep(s, t, was)
    ensures Rep(Reparented(s, Root(t), parent), t, parent)
  {
    if t.Br? {
      var s' := Reparented(s, Root(t), parent);
      RepFrame(s, s', t.left, t.node);
      RepFrame(s, s', t.right, t.node);
    }
  }

  /** The link of parent that leads to old', or else its right link, leads to elm. */
  ghost function Relinked(s: Store, parent: Ptr, old': Ptr, elm: Ptr): Store
    requires parent == NULL || parent in s
  {
    if parent == NULL then s
    else if s[parent].left == old' then s[parent := s[parent].(left := elm)]
    else s[parent := s[parent].(right := elm)]
  }

  lemma RelinkedPath(s: Store, p: Path, old': Ptr, elm: Ptr, root: Ptr)
    requires RepPath(s, p, old', root) && old' !in PathNodes(p) && old' != NULL
    ensures RepPath(Relinked(s, Holder(p), old', elm), p, elm, if p.Top? then elm else root)
  {
    if p.In? {
      var s' := Relinked(s, Holder(p), old', elm);
      assert p.sib.Br? ==> p.sib.node in Nodes(p.sib);
      RepFrame(s, s', p.sib, p.node);
      RepPathFrame(s, s', p.up, p.node, root);
    }
  }

  ghost function WithChild(side: Side, s: Store, n: Ptr, child: Ptr): Store
    requires n in s
  {
    if side == Left then s[n := s[n].(left := child)] else s[n := s[n].(right := child)]
  }

  /** RB_SET and the link from the parent: a new leaf in the empty hole of p. */
  ghost function Attached(s: Store, p: Path, elm: Ptr): Store
    requires Holder(p) == NULL || Holder(p) in s
  {
    var s1 := s[elm := Links(NULL, NULL, Holder(p), Red)];
    if p.Top? || Holder(p) == NULL then s1 else WithChild(p.side, s1, Holder(p), elm)
  }

  lemma AttachedAt(s: Store, p: Path, elm: Ptr, root: Ptr)
    requires At(s, p, Leaf, root) && elm != NULL && elm !in Foot(p, Leaf)
    ensures Holder(p) == NULL || Holder(p) in s
    ensures Holder(p) == NULL <==> p.Top?
    ensures At(Attached(s, p, elm), p, Br(Leaf, elm, Red, Leaf), if p.Top? then elm else root)
  {
    if p.In? {
      var s' := Attached(s, p, elm);
      RepFrame(s, s', p.sib, p.node);
      RepPathFrame(s, s', p.up, p.node, root);
    }
  }

  /** The pointers around elm that a rotation touches are records, and distinct. */
  ghost predicate CanRotate(side: Side, s: Store, elm: Ptr) {
    && elm in s
    && var y := Child(Other(side), s[elm]);
    && var par := s[elm].parent;
    && y != NULL && y in s && y != elm
    && var b := Child(side, s[y]);
    && (b != NULL ==> b in s && b != elm && b != y)
    && (par != NULL ==> par in s && par != elm && par != y && par != b)
  }

  /** The store after RB_ROTATE_LEFT (side Left) or RB_ROTATE_RIGHT of elm. */
  ghost function Rotated(side: Side, s: Store, elm: Ptr): Store
    requires CanRotate(side, s, elm)
  {
    var y, par := Child(Other(side), s[elm]), s[elm].parent;
    var b := Child(side, s[y]);
    var s1 := WithChild(Other(side), s, elm, b);
    var s2 := Reparented(s1, b, elm);
    var s3 := s2[y := s2[y].(parent := par)];
    var s4 := Relinked(s3, par, elm, y);
    var s5 := WithChild(side, s4, y, elm);
    s5[elm := s5[elm].(parent := y)]
  }

  /** Away from the rotated pair, a rotation only changes the middle subtree's
      parent pointer and the link above. */
  lemma RotatedElsewhere(side: Side, s: Store, elm: Ptr, on: set<Ptr>)
    requires CanRotate(side, s, elm) && elm !in on && Child(Other(side), s[elm]) !in on
    ensures var y, par, s' := Child(Other(side), s[elm]), s[elm].parent, Rotated(side, s, elm);
      var b := Child(side, s[y]);
      && (par == NULL || par !in on ==> Agree(Reparented(s, b, elm), s', on))
      && (b == NULL || b !in on ==> Agree(Relinked(s, par, elm, y), s', on))
      && ((par == NULL || par !in on) && (b == NULL || b !in on) ==> Agree(s, s', on))
  {
  }

  lemma RotatedOnly(side: Side, s: Store, elm: Ptr, on: set<Ptr>)
    requires CanRotate(side, s, elm) && elm in on && Child(Other(side), s[elm]) in on
    requires var b := Child(side, s[Child(Other(side), s[elm])]); b != NULL ==> b in on
    requires s[elm].parent != NULL ==> s[elm].parent in on
    ensures Only(s, Rotated(side, s, elm), on)
  {
  }

  lemma RotatedPair(side: Side, s: Store, elm: Ptr)
    requires CanRotate(side, s, elm)
    ensures var y, par, s' := Child(Other(side), s[elm]), s[elm].parent, Rotated(side, s, elm);
      && s'.Keys == s.Keys
      && s'[elm] == JoinLinks(side, Child(side, s[elm]), Child(side, s[y]), y, s[elm].color)
      && s'[y] == JoinLinks(side, elm, Child(Other(side), s[y]), par, s[y].color)
  {
  }

  ghost predicate Apart(a: Tree, elm: Ptr, b: Tree, y: Ptr, d: Tree) {
    && y != elm && elm !in Nodes(a) && elm !in Nodes(b) && elm !in Nodes(d)
    && y !in Nodes(a) && y !in Nodes(b) && y !in Nodes(d)
    && Nodes(a) !! Nodes(b) && Nodes(a) !! Nodes(d) && Nodes(b) !! Nodes(d)
  }

  /** The layout of a subtree about to be rotated, piece by piece. */
  lemma RotationParts(side: Side, s: Store, par: Ptr, a: Tree, elm: Ptr, c: Color, b: Tree, y: Ptr, cy: Color, d: Tree)
    requires Rep(s, Join(side, a, elm, c, Join(side, b, y, cy, d)), par)
    ensures elm != NULL && elm in s && s[elm] == JoinLinks(side, Root(a), y, par, c)
    ensures y != NULL && y in s && s[y] == JoinLinks(side, Root(b), Root(d), elm, cy)
    ensures Rep(s, a, elm) && Rep(s, b, y) && Rep(s, d, y) && Apart(a, elm, b, y, d)
    ensures Nodes(Join(side, a, elm, c, Join(side, b, y, cy, d))) == Nodes(a) + {elm} + (Nodes(b) + {y} + Nodes(d))
  {
    RepJoin(side, s, a, elm, c, Join(side, b, y, cy, d), par);
    RepJoin(side, s, b, y, cy, d, elm);
  }

  lemma UnionShuffle(a: set<Ptr>, elm: Ptr, b: set<Ptr>, y: Ptr, d: set<Ptr>)
    ensures (a + {elm} + b) + {y} + d == a + {elm} + (b + {y} + d)
  {
  }

  lemma RotationWhole(side: Side, s: Store, par: Ptr, a: Tree, elm: Ptr, c: Color, b: Tree, y: Ptr, cy: Color, d: Tree)
    requires elm != NULL && elm in s && s[elm] == JoinLinks(side, Root(a), Root(b), y, c)
    requires y != NULL && y in s && s[y] == JoinLinks(side, elm, Root(d), par, cy)
    requires Rep(s, a, elm) && Rep(s, b, elm) && Rep(s, d, y) && Apart(a, elm, b, y, d)
    ensures Rep(s, Join(side, Join(side, a, elm, c, b), y, cy, d), par)
    ensures Nodes(Join(side, Join(side, a, elm, c, b), y, cy, d)) == Nodes(a) + {elm} + (Nodes(b) + {y} + Nodes(d))
  {
    UnionShuffle(Nodes(a), elm, Nodes(b), y, Nodes(d));
    RepJoin(side, s, a, elm, c, b, y);
    RepJoin(side, s, Join(side, a, elm, c, b), y, cy, d, par);
  }

  /** A rotation lays the outer subtrees out as before and the middle one under elm. */
  lemma RotatedPieces(side: Side, s: Store, a: Tree, elm: Ptr, b: Tree, y: Ptr, d: Tree)
    requires CanRotate(side, s, elm) && y == Child(Other(side), s[elm]) && Root(b) == Child(side, s[y])
    requires Rep(s, a, elm) && Rep(s, b, y) && Rep(s, d, y) && Apart(a, elm, b, y, d)
    requires s[elm].parent == NULL || s[elm].parent !in Nodes(a) + Nodes(b) + Nodes(d)
    ensures var s' := Rotated(side, s, elm); Rep(s', a, elm) && Rep(s', b, elm) && Rep(s', d, y)
  {
    var s' := Rotated(side, s, elm);
    assert b.Br? ==> b.node in Nodes(b);
    RotatedElsewhere(side, s, elm, Nodes(a));
    RepFrame(s, s', a, elm);
    RotatedElsewhere(side, s, elm, Nodes(b));
    ReparentedRep(s, b, y, elm);
    RepFrame(Reparented(s, Root(b), elm), s', b, elm);
    RotatedElsewhere(side, s, elm, Nodes(d));
    RepFrame(s, s', d, y);
  }

  lemma RotatedPath(side: Side, s: Store, p: Path, elm: Ptr, root: Ptr)
    requires CanRotate(side, s, elm) && s[elm].parent == Holder(p) && elm != NULL
    requires RepPath(s, p, elm, root)
    requires var y := Child(Other(side), s[elm]);
      elm !in PathNodes(p) && y !in PathNodes(p) && (Child(side, s[y]) == NULL || Child(side, s[y]) !in PathNodes(p))
    ensures var y := Child(Other(side), s[elm]);
      RepPath(Rotated(side, s, elm), p, y, if p.Top? then y else root)
  {
    var y := Child(Other(side), s[elm]);
    RotatedElsewhere(side, s, elm, PathNodes(p));
    RelinkedPath(s, p, elm, y, root);
    RepPathFrame(Relinked(s, Holder(p), elm, y), Rotated(side, s, elm), p, y, if p.Top? then y else root);
  }

  /** A rotation keeps the focus and turns the subtree in it. */
  lemma RotatedAt(side: Side, s: Store, p: Path, a: Tree, elm: Ptr, c: Color, b: Tree, y: Ptr, cy: Color, d: Tree,
                  root: Ptr)
    requires At(s, p, Join(side, a, elm, c, Join(side, b, y, cy, d)), root)
    ensures CanRotate(side, s, elm) && Child(Other(side), s[elm]) == y
    ensures At(Rotated(side, s, elm), p, Join(side, Join(side, a, elm, c, b), y, cy, d), if p.Top? then y else root)
    ensures s[elm].parent == Holder(p) && (Holder(p) == NULL <==> p.Top?)
    ensures Only(s, Rotated(side, s, elm), Foot(p, Join(side, a, elm, c, Join(side, b, y, cy, d))))
  {
    assert p.In? ==> p.node in PathNodes(p);
    assert b.Br? ==> b.node in Nodes(b);
    RotationParts(side, s, Holder(p), a, elm, c, b, y, cy, d);
    var s' := Rotated(side, s, elm);
    RotatedPair(side, s, elm);
    RotatedOnly(side, s, elm, Foot(p, Join(side, a, elm, c, Join(side, b, y, cy, d))));
    RotatedPath(side, s, p, elm, root);
    RotatedPieces(side, s, a, elm, b, y, d);
    RotationWhole(side, s', Holder(p), a, elm, c, b, y, cy, d);
  }

  lemma ConcatShuffle(a: seq<Ptr>, x: Ptr, b: seq<Ptr>, y: Ptr, d: seq<Ptr>)
    ensures (a + [x] + b) + [y] + d == a + [x] + (b + [y] + d)
  {
  }

  lemma RotationOrder(side: Side, a: Tree, elm: Ptr, c: Color, b: Tree, y: Ptr, cy: Color, d: Tree)
    ensures InOrder(Join(side, a, elm, c, Join(side, b, y, cy, d)))
            == InOrder(Join(side, Join(side, a, elm, c, b), y, cy, d))
  {
    var i, j, k := InOrder(a), InOrder(b), InOrder(d);
    if side == Left {
      ConcatShuffle(i, elm, j, y, k);
    } else {
      ConcatShuffle(k, y, j, elm, i);
    }
  }

  ghost predicate SameOrder(p: Path, t: Tree, p': Path, t': Tree) {
    InOrder(Plug(p', t')) == InOrder(Plug(p, t))
  }

  /** Replacing the focused subtree by one with the same records in the same order. */
  lemma SwapOrder(p: Path, t: Tree, t': Tree)
    requires InOrder(t') == InOrder(t)
    ensures SameOrder(p, t, p, t')
  {
    PlugInOrder(p, t);
    PlugInOrder(p, t');
  }

  lemma {:induction false} InOrderMembers(t: Tree)
    ensures Nodes(t) == Members(InOrder(t))
  {
    if t.Br? {
      InOrderMembers(t.left);
      InOrderMembers(t.right);
    }
  }

  ghost function Blackened(t: Tree): Tree {
    if t.Leaf? then t else t.(color := Black)
  }

  /** A tree in which at most the root breaks the color rule is red-black once its
      root is painted black. */
  lemma BlackRoot(s: Store, p: Path, t: Tree, h: nat, root: Ptr)
    requires At(s, p, t, root) && (p.In? || t.Br?)
    requires if p.Top? then Weak(t, h) else Ok(t, h) && PathOk(p, h) && (IsRed(t) ==> !PathRed(p))
    ensures root != NULL && root in s && root in Foot(p, t)
    ensures var t' := Blackened(Plug(p, t));
      && At(Recolored(s, root, Black), Top, t', root)
      && Ok(t', BlackHeight(t')) && !IsRed(t') && InOrder(t') == InOrder(Plug(p, t))
  {
    var u := Plug(p, t);
    AtPlug(s, p, t, root);
    PlugNodes(p, t);
    assert u.Br? by { if p.In? { PathRoot(s, p, Root(t), root); } }
    RecoloredAt(s, Top, u, Black, root);
    if p.In? {
      PlugOk(p, t, h);
    } else {
      OkHeight(Blackened(t), if t.color == Black then h else h + 1);
    }
  }

  lemma FootMembers(p: Path, t: Tree)
    ensures Foot(p, t) == Members(InOrder(Plug(p, t)))
  {
    PlugNodes(p, t);
    InOrderMembers(Plug(p, t));
  }

  ghost function Members(s: seq<Ptr>): set<Ptr> {
    set n | n in s
  }
}
