/** The intrusive red-black tree: linked nodes with parent pointers, rotated and recoloured in place.
    A ghost store mirrors the link fields, so that shapes are compared with a value and not with the heap. */
module RbTree {
  import opened RbShape
  import opened Strings

  datatype Links = Links(left: Node?, right: Node?, parent: Node?, red: bool)

  type Store = map<Node, Links>

  function RootOf(t: Tree): Node? {
    if t.Leaf? then null else t.n
  }

  function Just(n: Node?): set<Node> {
    if n == null then {} else {n}
  }

  function ParentOf(c: Path): Node? {
    if c.Top? then null else c.n
  }

  /** The store holds the shape `t` below a node `par`. */
  predicate Holds(H: Store, t: Tree, par: Node?) {
    match t
    case Leaf => true
    case Br(l, n, red, r) =>
      n in H && H[n] == Links(RootOf(l), RootOf(r), par, red) && Holds(H, l, n) && Holds(H, r, n)
  }

  /** The store holds the path `c`, whose end points to `hole`; `root` is the tree's root pointer. */
  predicate HoldsPath(H: Store, c: Path, hole: Node?, root: Node?) {
    match c
    case Top => hole == root
    case InL(up, n, red, r) =>
      n in H && H[n] == Links(hole, RootOf(r), ParentOf(up), red) && Holds(H, r, n) && HoldsPath(H, up, n, root)
    case InR(l, n, red, up) =>
      n in H && H[n] == Links(RootOf(l), hole, ParentOf(up), red) && Holds(H, l, n) && HoldsPath(H, up, n, root)
  }

  /** The store and root pointer are exactly the tree `t` at the end of path `c`. */
  ghost predicate At(H: Store, root: Node?, c: Path, t: Tree) {
    && H.Keys == PathNodes(c) + Nodes(t) && Separate(c, t)
    && HoldsPath(H, c, RootOf(t), root) && Holds(H, t, ParentOf(c))
  }

  /** Zipping up or down does not change what is held. */
  lemma {:induction false} AtPlug(H: Store, root: Node?, c: Path, t: Tree)
    ensures At(H, root, Top, Plug(c, t)) <==> At(H, root, c, t)
  {
    match c
    case Top =>
    case InL(up, n, red, r) =>
      AtPlug(H, root, up, Br(t, n, red, r));
      AtUp(H, root, up, t, n, red, r);
    case InR(l, n, red, up) =>
      AtPlug(H, root, up, Br(l, n, red, t));
      AtUp(H, root, up, l, n, red, t);
  }

  lemma AtUp(H: Store, root: Node?, up: Path, l: Tree, n: Node, red: bool, r: Tree)
    ensures At(H, root, up, Br(l, n, red, r)) <==> At(H, root, InL(up, n, red, r), l)
    ensures At(H, root, up, Br(l, n, red, r)) <==> At(H, root, InR(l, n, red, up), r)
  {
    assert PathNodes(InL(up, n, red, r)) + Nodes(l) == PathNodes(up) + Nodes(Br(l, n, red, r));
    assert PathNodes(InR(l, n, red, up)) + Nodes(r) == PathNodes(up) + Nodes(Br(l, n, red, r));
  }

  lemma ZipUp(H: Store, root: Node?, c: Path, t: Tree)
    requires !c.Top?
    ensures At(H, root, c, t) <==> At(H, root, c.up, Above(c, t))
  {
    if c.InL? { AtUp(H, root, c.up, t, c.n, c.red, c.r); } else { AtUp(H, root, c.up, c.l, c.n, c.red, t); }
  }

  lemma ZipDown(H: Store, root: Node?, c: Path, t: Tree)
    requires t.Br?
    ensures At(H, root, c, t) <==> At(H, root, InL(c, t.n, t.red, t.r), t.l)
    ensures At(H, root, c, t) <==> At(H, root, InR(t.l, t.n, t.red, c), t.r)
  {
    AtUp(H, root, c, t.l, t.n, t.red, t.r);
  }

  /** Shapes are insensitive to changes elsewhere. */
  lemma {:induction false} HoldsFrame(H: Store, H': Store, t: Tree, par: Node?)
    requires Holds(H, t, par) && forall n :: n in Nodes(t) && n in H ==> n in H' && H'[n] == H[n]
    ensures Holds(H', t, par)
  {
    match t
    case Leaf =>
    case Br(l, n, red, r) =>
      HoldsFrame(H, H', l, n);
      HoldsFrame(H, H', r, n);
  }

  lemma {:induction false} HoldsPathFrame(H: Store, H': Store, c: Path, hole: Node?, root: Node?)
    requires HoldsPath(H, c, hole, root) && forall n :: n in PathNodes(c) && n in H ==> n in H' && H'[n] == H[n]
    ensures HoldsPath(H', c, hole, root)
  {
    match c
    case Top =>
    case InL(up, n, red, r) =>
      HoldsFrame(H, H', r, n);
      HoldsPathFrame(H, H', up, n, root);
    case InR(l, n, red, up) =>
      HoldsFrame(H, H', l, n);
      HoldsPathFrame(H, H', up, n, root);
  }

  // ----- updates of the store -----

  function SetLeft(H: Store, n: Node, v: Node?): Store requires n in H { H[n := H[n].(left := v)] }
  function SetRight(H: Store, n: Node, v: Node?): Store requires n in H { H[n := H[n].(right := v)] }
  function SetParent(H: Store, n: Node, v: Node?): Store requires n in H { H[n := H[n].(parent := v)] }
  function SetRed(H: Store, n: Node, v: bool): Store requires n in H { H[n := H[n].(red := v)] }

  /** `if (child) RB_PARENT(child) = par`. */
  function SetChildParent(H: Store, child: Node?, par: Node?): Store
    requires child != null ==> child in H
  {
    if child == null then H else SetParent(H, child, par)
  }

  function SetLeftChild(H: Store, n: Node, child: Node?): Store
    requires n in H && (child != null ==> child in H)
  {
    SetChildParent(SetLeft(H, n, child), child, n)
  }

  function SetRightChild(H: Store, n: Node, child: Node?): Store
    requires n in H && (child != null ==> child in H)
  {
    SetChildParent(SetRight(H, n, child), child, n)
  }

  /** A new parent for the root of a shape. */
  lemma Adopted(H: Store, t: Tree, was: Node?, par: Node?)
    requires Holds(H, t, was) && Distinct(t) && t.Br?
    ensures Holds(SetParent(H, t.n, par), t, par)
  {
    var H' := SetParent(H, t.n, par);
    HoldsFrame(H, H', t.l, t.n);
    HoldsFrame(H, H', t.r, t.n);
  }

  /** Redirecting the link at the end of a path. */
  function Redirect(H: Store, c: Path, v: Node?): Store
    requires !c.Top? ==> c.n in H
  {
    match c
    case Top => H
    case InL(_, n, _, _) => SetLeft(H, n, v)
    case InR(_, n, _, _) => SetRight(H, n, v)
  }

  lemma Redirected(H: Store, c: Path, hole: Node?, v: Node?, root: Node?)
    requires HoldsPath(H, c, hole, root) && PathDistinct(c)
    ensures HoldsPath(Redirect(H, c, v), c, v, if c.Top? then v else root)
  {
    var H' := Redirect(H, c, v);
    match c
    case Top =>
    case InL(up, n, red, r) =>
      HoldsFrame(H, H', r, n);
      HoldsPathFrame(H, H', up, n, root);
    case InR(l, n, red, up) =>
      HoldsFrame(H, H', l, n);
      HoldsPathFrame(H, H', up, n, root);
  }

  // ----- rotations of the store -----

  /** The parts around a rotation share no node. */
  predicate Parts(c: Path, a: Tree, x: Node, b: Tree, y: Node, d: Tree) {
    && PathDistinct(c) && Distinct(a) && Distinct(b) && Distinct(d)
    && x != y
    && x !in PathNodes(c) && x !in Nodes(a) && x !in Nodes(b) && x !in Nodes(d)
    && y !in PathNodes(c) && y !in Nodes(a) && y !in Nodes(b) && y !in Nodes(d)
    && Nodes(a) !! Nodes(b) && Nodes(a) !! Nodes(d) && Nodes(b) !! Nodes(d)
    && PathNodes(c) !! Nodes(a) && PathNodes(c) !! Nodes(b) && PathNodes(c) !! Nodes(d)
  }

  lemma RotationParts(c: Path, a: Tree, x: Node, p: bool, b: Tree, y: Node, q: bool, d: Tree)
    ensures Separate(c, Br(a, x, p, Br(b, y, q, d))) <==> Parts(c, a, x, b, y, d)
    ensures Separate(c, Br(Br(a, x, p, b), y, q, d)) <==> Parts(c, a, x, b, y, d)
    ensures Nodes(Br(a, x, p, Br(b, y, q, d))) == Nodes(Br(Br(a, x, p, b), y, q, d))
      == Nodes(a) + {x} + Nodes(b) + {y} + Nodes(d)
  {
    var u, v := Br(b, y, q, d), Br(a, x, p, b);
    assert Nodes(u) == Nodes(b) + {y} + Nodes(d) && Nodes(v) == Nodes(a) + {x} + Nodes(b);
    assert Nodes(Br(a, x, p, u)) == Nodes(a) + {x} + Nodes(u) && Nodes(Br(v, y, q, d)) == Nodes(v) + {y} + Nodes(d);
    assert Distinct(u) <==> Distinct(b) && Distinct(d) && y !in Nodes(b) && y !in Nodes(d) && Nodes(b) !! Nodes(d);
    assert Distinct(v) <==> Distinct(a) && Distinct(b) && x !in Nodes(a) && x !in Nodes(b) && Nodes(a) !! Nodes(b);
  }

  lemma PathEnd(c: Path)
    ensures !c.Top? ==> c.n in PathNodes(c)
  {
  }

  lemma RootInNodes(t: Tree)
    ensures t.Br? ==> t.n in Nodes(t)
  {
  }

  predicate Present(H: Store, c: Path, x: Node, b: Tree, y: Node) {
    x in H && y in H && (b.Br? ==> b.n in H) && (!c.Top? ==> c.n in H)
  }

  /** `tmp` takes the place of `elm` below the parent of `elm`. */
  function Hoisted(H: Store, c: Path, tmp: Node): Store
    requires tmp in H && (!c.Top? ==> c.n in H)
  {
    Redirect(SetParent(H, tmp, ParentOf(c)), c, tmp)
  }

  /** The assignments of RB_ROTATE_LEFT, in order. */
  function RotatedLeft(H: Store, c: Path, x: Node, b: Tree, y: Node): Store
    requires Present(H, c, x, b, y)
  {
    SetLeftChild(Hoisted(SetRightChild(H, x, RootOf(b)), c, y), y, x)
  }

  /** The assignments of RB_ROTATE_RIGHT, in order. */
  function RotatedRight(H: Store, c: Path, y: Node, b: Tree, x: Node): Store
    requires Present(H, c, x, b, y)
  {
    SetRightChild(Hoisted(SetLeftChild(H, y, RootOf(b)), c, x), x, y)
  }

  /** `H'` differs from `H` only at `x`, `y`, the root of `b` and the end of the path. */
  ghost predicate Rotated(H: Store, H': Store, c: Path, x: Node, b: Tree, y: Node, bpar: Node, top: Node) {
    && H'.Keys == H.Keys
    && (forall n :: n in H && n != x && n != y && (b.Br? ==> n != b.n) && (!c.Top? ==> n != c.n) ==> H'[n] == H[n])
    && (b.Br? ==> b.n in H && H'[b.n] == H[b.n].(parent := bpar))
    && (!c.Top? ==> c.n in H && H'[c.n] == Redirect(H, c, top)[c.n])
  }

  lemma RotatedLeftCells(H: Store, c: Path, x: Node, b: Tree, y: Node)
    requires Present(H, c, x, b, y) && x != y
    requires b.Br? ==> b.n != x && b.n != y && (!c.Top? ==> b.n != c.n)
    requires !c.Top? ==> c.n != x && c.n != y
    ensures var H' := RotatedLeft(H, c, x, b, y);
      Rotated(H, H', c, x, b, y, x, y)
      && H'[x] == Links(H[x].left, RootOf(b), y, H[x].red) && H'[y] == Links(x, H[y].right, ParentOf(c), H[y].red)
  {
  }

  lemma RotatedRightCells(H: Store, c: Path, x: Node, b: Tree, y: Node)
    requires Present(H, c, x, b, y) && x != y
    requires b.Br? ==> b.n != x && b.n != y && (!c.Top? ==> b.n != c.n)
    requires !c.Top? ==> c.n != x && c.n != y
    ensures var H' := RotatedRight(H, c, y, b, x);
      Rotated(H, H', c, x, b, y, y, x)
      && H'[y] == Links(RootOf(b), H[y].right, x, H[y].red) && H'[x] == Links(H[x].left, y, ParentOf(c), H[x].red)
  {
  }

  /** What a rotation leaves in place around its two nodes. */
  lemma RotatedHolds(H: Store, H': Store, root: Node?, c: Path, a: Tree, x: Node, b: Tree, y: Node, d: Tree,
      hole: Node, bpar: Node, top: Node, was: Node)
    requires Parts(c, a, x, b, y, d) && Rotated(H, H', c, x, b, y, bpar, top)
    requires Holds(H, a, x) && Holds(H, d, y) && Holds(H, b, was) && HoldsPath(H, c, hole, root)
    ensures Holds(H', a, x) && Holds(H', d, y) && Holds(H', b, bpar)
    ensures HoldsPath(H', c, top, if c.Top? then top else root)
  {
    PathEnd(c);
    RootInNodes(b);
    hide Distinct, PathDistinct;
    HoldsFrame(H, H', a, x);
    HoldsFrame(H, H', d, y);
    if b.Br? {
      Adopted(H, b, was, bpar);
      HoldsFrame(SetParent(H, b.n, bpar), H', b, bpar);
    }
    Redirected(H, c, hole, top, root);
    HoldsPathFrame(Redirect(H, c, top), H', c, top, if c.Top? then top else root);
  }

  lemma RotateLeftAt(H: Store, root: Node?, c: Path, a: Tree, x: Node, p: bool, b: Tree, y: Node, q: bool, d: Tree)
    requires At(H, root, c, Br(a, x, p, Br(b, y, q, d)))
    ensures Present(H, c, x, b, y)
    ensures At(RotatedLeft(H, c, x, b, y), if c.Top? then y else root, c, Br(Br(a, x, p, b), y, q, d))
    ensures RotatedLeft(H, c, x, b, y).Keys == H.Keys
  {
    RotationParts(c, a, x, p, b, y, q, d);
    PathEnd(c);
    RootInNodes(b);
    assert Holds(H, Br(b, y, q, d), x);
    hide Separate, Distinct, PathDistinct, Nodes, PathNodes, RotatedLeft, HoldsPath, Rotated;
    RotatedLeftCells(H, c, x, b, y);
    var H' := RotatedLeft(H, c, x, b, y);
    RotatedHolds(H, H', root, c, a, x, b, y, d, x, x, y, y);
    assert Holds(H', Br(a, x, p, b), y);
    assert H'.Keys == H.Keys by { SameKeys(H, H', c, x, b, y, x, y); }
  }

  lemma SameKeys(H: Store, H': Store, c: Path, x: Node, b: Tree, y: Node, bpar: Node, top: Node)
    requires Rotated(H, H', c, x, b, y, bpar, top)
    ensures H'.Keys == H.Keys
  {
  }

  lemma RotateRightAt(H: Store, root: Node?, c: Path, a: Tree, x: Node, p: bool, b: Tree, y: Node, q: bool, d: Tree)
    requires At(H, root, c, Br(Br(a, x, p, b), y, q, d))
    ensures Present(H, c, x, b, y)
    ensures At(RotatedRight(H, c, y, b, x), if c.Top? then x else root, c, Br(a, x, p, Br(b, y, q, d)))
    ensures RotatedRight(H, c, y, b, x).Keys == H.Keys
  {
    RotationParts(c, a, x, p, b, y, q, d);
    PathEnd(c);
    RootInNodes(b);
    assert Holds(H, Br(a, x, p, b), y);
    hide Separate, Distinct, PathDistinct, Nodes, PathNodes, RotatedRight, HoldsPath, Rotated;
    RotatedRightCells(H, c, x, b, y);
    var H' := RotatedRight(H, c, y, b, x);
    RotatedHolds(H, H', root, c, a, x, b, y, d, y, y, x, x);
    assert Holds(H', Br(b, y, q, d), x);
    assert H'.Keys == H.Keys by { SameKeys(H, H', c, x, b, y, y, x); }
  }

  /** Recolouring the node at a position. */
  lemma RecolourAt(H: Store, root: Node?, c: Path, l: Tree, n: Node, red: bool, r: Tree, red': bool)
    requires At(H, root, c, Br(l, n, red, r))
    ensures n in H && At(SetRed(H, n, red'), root, c, Br(l, n, red', r))
  {
    var H' := SetRed(H, n, red');
    HoldsFrame(H, H', l, n);
    HoldsFrame(H, H', r, n);
    HoldsPathFrame(H, H', c, n, root);
    assert Nodes(Br(l, n, red', r)) == Nodes(Br(l, n, red, r));
  }

  /** The link fields around a position, as pointer code finds them. */
  predicate Linked(H: Store, root: Node?, c: Path, n: Node) {
    && n in H && H[n].parent == ParentOf(c)
    && (c.Top? ==> root == n)
    && (!c.Top? ==> c.n in H && c.n != n)
    && (c.InL? ==> H[c.n].left == n && H[c.n].right != n)
    && (c.InR? ==> H[c.n].right == n && H[c.n].left != n)
  }

  lemma LinkedAt(H: Store, root: Node?, c: Path, t: Tree)
    requires At(H, root, c, t) && t.Br?
    ensures Linked(H, root, c, t.n) && H[t.n] == Links(RootOf(t.l), RootOf(t.r), ParentOf(c), t.red)
    ensures !c.Top? ==> H[c.n].red == c.red && H[c.n].parent == ParentOf(c.up)
    ensures c.InL? ==> H[c.n].right == RootOf(c.r)
    ensures c.InR? ==> H[c.n].left == RootOf(c.l)
  {
    PathEnd(c);
    if c.InR? { RootInNodes(c.l); } else if c.InL? { RootInNodes(c.r); }
  }

  lemma UncleLinks(H: Store, root: Node?, c: Path, t: Tree)
    requires At(H, root, c, t) && t.Br?
    ensures t.l.Br? ==> t.l.n in H && H[t.l.n] == Links(RootOf(t.l.l), RootOf(t.l.r), t.n, t.l.red)
    ensures t.r.Br? ==> t.r.n in H && H[t.r.n] == Links(RootOf(t.r.l), RootOf(t.r.r), t.n, t.r.red)
  {
    if t.l.Br? { ChildLinks(H, root, c, t, t.l, t.l.l); }
    if t.r.Br? { ChildLinks(H, root, c, t, t.r, t.r.l); }
  }

  /** A child, and its own child on the side `left`, are nodes of their own. */
  lemma ChildLinks(H: Store, root: Node?, c: Path, t: Tree, u: Tree, v: Tree)
    requires At(H, root, c, t) && t.Br? && u.Br? && (u == t.l || u == t.r) && (v == u.l || v == u.r)
    ensures u.n in H && u.n != t.n && (!c.Top? ==> c.n != u.n) && H[u.n] == Links(RootOf(u.l), RootOf(u.r), t.n, u.red)
    ensures v.Br? ==> v.n in H && v.n != t.n && v.n != u.n && (!c.Top? ==> c.n != v.n)
    ensures v.Br? ==> H[v.n] == Links(RootOf(v.l), RootOf(v.r), u.n, v.red)
  {
    PathEnd(c);
    RootInNodes(u);
    RootInNodes(v);
    assert Holds(H, u, t.n) && Nodes(v) <= Nodes(u) <= Nodes(t) && Distinct(u);
    assert Holds(H, v, u.n);
  }

  /** `elm` hangs at the end of `c` and `tmp` can be linked there. */
  predicate HoistReady(H: Store, c: Path, elm: Node, tmp: Node) {
    && elm in H && tmp in H && elm != tmp && H[elm].parent == ParentOf(c)
    && (!c.Top? ==> c.n in H && c.n != tmp)
    && (c.InL? ==> H[c.n].left == elm)
    && (c.InR? ==> H[c.n].left != elm)
  }

  lemma RotLAt(H: Store, root: Node?, c: Path, t: Tree) returns (goal: Store)
    requires t.Br? && t.r.Br? && At(H, root, c, t)
    ensures Present(H, c, t.n, t.r.l, t.r.n) && goal == RotatedLeft(H, c, t.n, t.r.l, t.r.n) && goal.Keys == H.Keys
    ensures At(goal, if c.Top? then t.r.n else root, c, RotL(t))
    ensures H[t.n].right == t.r.n && H[t.r.n].left == RootOf(t.r.l)
    ensures HoistReady(SetRightChild(H, t.n, RootOf(t.r.l)), c, t.n, t.r.n)
  {
    hide At, RotatedLeft;
    LinkedAt(H, root, c, t);
    ChildLinks(H, root, c, t, t.r, t.r.l);
    RotateLeftAt(H, root, c, t.l, t.n, t.red, t.r.l, t.r.n, t.r.red, t.r.r);
    goal := RotatedLeft(H, c, t.n, t.r.l, t.r.n);
  }

  lemma RotRAt(H: Store, root: Node?, c: Path, t: Tree) returns (goal: Store)
    requires t.Br? && t.l.Br? && At(H, root, c, t)
    ensures Present(H, c, t.l.n, t.l.r, t.n) && goal == RotatedRight(H, c, t.n, t.l.r, t.l.n) && goal.Keys == H.Keys
    ensures At(goal, if c.Top? then t.l.n else root, c, RotR(t))
    ensures H[t.n].left == t.l.n && H[t.l.n].right == RootOf(t.l.r)
    ensures HoistReady(SetLeftChild(H, t.n, RootOf(t.l.r)), c, t.n, t.l.n)
  {
    hide At, RotatedRight;
    LinkedAt(H, root, c, t);
    ChildLinks(H, root, c, t, t.l, t.l.r);
    RotateRightAt(H, root, c, t.l.l, t.l.n, t.l.red, t.l.r, t.n, t.red, t.r);
    goal := RotatedRight(H, c, t.n, t.l.r, t.l.n);
  }

  /** The whole tree once the red node has no red parent. */
  lemma PlugRoot(c: Path, t: Tree)
    requires RedFocus(c, t) && !RedAbove(c)
    ensures var T := Plug(c, t); T.Br? && Coloured(T) && Coloured(Recoloured(T, false)) && InOrder(T) == Whole(c, t)
  {
    PlugColoured(c, t);
    PlugInOrder(c, t);
    PlugNodes(c, t);
  }

  /** The position of the sibling. */
  function SiblingPath(c: Path, t: Tree): Path
    requires !c.Top?
  {
    if c.InL? then InR(t, c.n, c.red, c.up) else InL(c.up, c.n, c.red, t)
  }

  lemma AtSibling(H: Store, root: Node?, c: Path, t: Tree)
    requires !c.Top?
    ensures At(H, root, c, t) <==> At(H, root, SiblingPath(c, t), Sibling(c))
  {
    ZipUp(H, root, c, t);
    ZipDown(H, root, c.up, Above(c, t));
  }

  /** What the fix-up reads: the sibling and the colours of its children. */
  lemma SiblingLinks(H: Store, root: Node?, c: Path, t: Tree)
    requires At(H, root, c, t) && !c.Top? && Sibling(c).Br?
    ensures var s := Sibling(c);
      && s.n in H && H[s.n] == Links(RootOf(s.l), RootOf(s.r), c.n, s.red) && c.n in H && H[c.n].red == c.red
      && (s.l.Br? ==> s.l.n in H && H[s.l.n].red == s.l.red)
      && (s.r.Br? ==> s.r.n in H && H[s.r.n].red == s.r.red)
    ensures c.InL? ==> H[c.n].right == Sibling(c).n && H[c.n].left == RootOf(t)
    ensures c.InR? ==> H[c.n].left == Sibling(c).n && H[c.n].right == RootOf(t)
  {
    ZipUp(H, root, c, t);
    var P := Above(c, t);
    LinkedAt(H, root, c.up, P);
    UncleLinks(H, root, c.up, P);
    AtSibling(H, root, c, t);
    UncleLinks(H, root, SiblingPath(c, t), Sibling(c));
  }

  /** The tree after the last rotation of a removal obeys the colour laws. */
  lemma RepairedTree(c: Path, R: Tree)
    requires Coloured(R) && R.Br? && PathColoured(c, BlackHeight(R)) && (RedAbove(c) || c.Top? ==> !IsRed(R))
    ensures var T := Plug(c, R); T.Br? && Coloured(T) && !IsRed(T) && Short(Top, T)
  {
    PlugColoured(c, R);
    PlugNodes(c, R);
    assert R.n in Nodes(R);
  }

  /** The whole tree after the last rotation. */
  lemma LastTree(c: Path, t: Tree) returns (T: Tree)
    requires Short(c, t) && !IsRed(t) && !c.Top? && Sibling(c).Br? && !Sibling(c).red && IsRed(Far(c))
    ensures T == Plug(c.up, FarRotated(c, t)) && T.Br? && !IsRed(T) && Short(Top, T) && Whole(Top, T) == Whole(c, t)
  {
    var R := FarRotated(c, t);
    ShortFarNephew(c, t);
    FarRotatedOrder(c, t);
    RepairedTree(c.up, R);
    AbovePlug(c, t);
    WholeSame(c.up, R, Above(c, t));
    T := Plug(c.up, R);
    WholeTree(c.up, R);
    WholeTree(Top, T);
  }

  lemma NephewsUp(c: Path, t: Tree)
    requires Short(c, t) && !IsRed(t) && !c.Top? && Sibling(c).Br? && !Sibling(c).red && !IsRed(Near(c))
      && !IsRed(Far(c))
    ensures var c1 := WithSibling(c, Recoloured(Sibling(c), true));
            Short(c.up, Above(c1, t)) && Whole(c.up, Above(c1, t)) == Whole(c, t)
  {
    ShortBlackNephews(c, t);
    var s := Recoloured(Sibling(c), true);
    WithSiblingOrder(c, t, s);
    AbovePlug(WithSibling(c, s), t);
  }

  lemma NephewIn(c: Path, t: Tree)
    requires Short(c, t) && !c.Top? && Sibling(c).Br? && !Sibling(c).red && IsRed(Near(c)) && !IsRed(Far(c))
    ensures var c1 := WithSibling(c, NearRotated(c));
            Short(c1, t) && !Sibling(c1).red && IsRed(Far(c1)) && Whole(c1, t) == Whole(c, t)
  {
    ShortNearNephew(c, t);
    NearRotatedOrder(c);
    WithSiblingOrder(c, t, NearRotated(c));
  }

  /** The focus is the root exactly at the top, and its fields are as the shape says. */
  lemma FocusLinks(H: Store, root: Node?, c: Path, t: Tree)
    requires At(H, root, c, t)
    ensures RootOf(t) == root <==> c.Top?
    ensures t.Br? ==> t.n in H && H[t.n].red == t.red && H[t.n].parent == ParentOf(c)
    ensures root == null || root in H
  {
    if !c.Top? { RootOnPath(H, c, RootOf(t), root); }
    RootInNodes(t);
  }

  lemma {:induction false} RootOnPath(H: Store, c: Path, hole: Node?, root: Node?)
    requires HoldsPath(H, c, hole, root) && !c.Top?
    ensures root != null && root in PathNodes(c)
  {
    if !c.up.Top? { RootOnPath(H, c.up, c.n, root); }
  }

  lemma ParentLinks(H: Store, root: Node?, c: Path, t: Tree)
    requires At(H, root, c, t) && Short(c, t) && !c.Top?
    ensures c.n in H && (c.InL? <==> H[c.n].left == RootOf(t))
  {
    ShortSibling(c, t);
    PathEnd(c);
    RootInNodes(Sibling(c));
    RootInNodes(t);
  }

  lemma RedLeaf(c: Path, e: Node)
    requires Coloured(Plug(c, Leaf)) && !IsRed(Plug(c, Leaf))
    ensures RedFocus(c, Br(Leaf, e, true, Leaf))
  {
    UnplugColoured(c, Leaf);
  }

  lemma EmptyBounds(k: string)
    ensures Between(Top, k)
  {
  }

  lemma WholeTree(c: Path, t: Tree)
    ensures InOrder(Plug(c, t)) == Whole(c, t)
  {
    PlugInOrder(c, t);
  }

  lemma RootAt(H: Store, root: Node?, c: Path, t: Tree)
    requires At(H, root, Top, Plug(c, t))
    ensures root == RootOf(Plug(c, t))
  {
  }

  lemma HitInOrder(c: Path, t: Tree)
    requires t.Br?
    ensures t.n in Whole(c, t) && HasKey(Whole(c, t), t.n.key)
  {
    assert InOrder(t)[|InOrder(t.l)|] == t.n;
    assert Whole(c, t)[|Before(c)| + |InOrder(t.l)|] == t.n;
  }

  lemma Slices(a: seq<Node>, b: seq<Node>)
    ensures (a + b)[..|a|] == a && (a + b)[|a|..] == b
  {
  }

  /** Linking a fresh red node at an empty position. */
  lemma LeafAt(H: Store, root: Node?, c: Path, e: Node)
    requires At(H, root, c, Leaf) && e !in H
    ensures !c.Top? ==> c.n in H && c.n != e
    ensures var H1 := H[e := Links(null, null, ParentOf(c), true)]; var H' := Redirect(H1, c, e);
            At(H', if c.Top? then e else root, c, Br(Leaf, e, true, Leaf)) && H'.Keys == H.Keys + {e}
  {
    PathEnd(c);
    var H1 := H[e := Links(null, null, ParentOf(c), true)];
    HoldsPathFrame(H, H1, c, null, root);
    Redirected(H1, c, null, e, root);
  }

  // ----- unlinking -----

  lemma HoldsWithout(H: Store, t: Tree, par: Node?, n: Node)
    requires Holds(H, t, par) && n !in Nodes(t)
    ensures Holds(H - {n}, t, par)
  {
    HoldsFrame(H, H - {n}, t, par);
  }

  /** The links above `n` lead past it to `child`. */
  function Bypassed(H: Store, c: Path, child: Node?): Store
    requires (child != null ==> child in H) && (!c.Top? ==> c.n in H)
  {
    Redirect(SetChildParent(H, child, ParentOf(c)), c, child)
  }

  /** Unlinking a node with at most one child. */
  lemma SpliceAt(H: Store, root: Node?, c: Path, t: Tree, u: Tree)
    requires At(H, root, c, t) && OnlyChild(t, u)
    ensures (u.Br? ==> u.n in H) && (!c.Top? ==> c.n in H)
    ensures At(Bypassed(H, c, RootOf(u)) - {t.n}, if c.Top? then RootOf(u) else root, c, u)
    ensures (Bypassed(H, c, RootOf(u)) - {t.n}).Keys == H.Keys - {t.n}
    ensures u.Br? ==> u.n != t.n
    ensures !c.Top? ==> c.n != t.n
  {
    PathEnd(c);
    RootInNodes(u);
    var child := RootOf(u);
    var H1 := SetChildParent(H, child, ParentOf(c));
    if u.Br? { Adopted(H, u, t.n, ParentOf(c)); }
    HoldsPathFrame(H, H1, c, t.n, root);
    Redirected(H1, c, t.n, child, root);
    var H2 := Redirect(H1, c, child);
    HoldsFrame(H1, H2, u, ParentOf(c));
    HoldsWithout(H2, u, ParentOf(c), t.n);
    HoldsPathFrame(H2, H2 - {t.n}, c, child, if c.Top? then child else root);
    assert (H2 - {t.n}).Keys == H.Keys - {t.n} == PathNodes(c) + Nodes(u);
  }

  /** `m` takes over the links, the colour and the neighbours of `n`. */
  function TookPlace(H: Store, c: Path, n: Node, m: Node): Store
    requires n in H && m !in H && (!c.Top? ==> c.n in H)
    requires H[n].left != null ==> H[n].left in H
    requires H[n].right != null ==> H[n].right in H
  {
    SetChildParent(SetChildParent(Redirect(H[m := H[n]], c, m), H[n].left, m), H[n].right, m)
  }

  lemma TookPlaceCells(H: Store, c: Path, l: Tree, n: Node, r: Tree, m: Node)
    requires n in H && m !in H && (!c.Top? ==> c.n in H && c.n != n)
    requires H[n].left == RootOf(l) && H[n].right == RootOf(r)
    requires l.Br? ==> l.n in H && l.n != n && (!c.Top? ==> c.n != l.n)
    requires r.Br? ==> r.n in H && r.n != n && (!c.Top? ==> c.n != r.n)
    requires l.Br? && r.Br? ==> l.n != r.n
    ensures var H' := TookPlace(H, c, n, m);
      && H'.Keys == H.Keys + {m} && H'[m] == H[n]
      && (!c.Top? ==> H'[c.n] == Redirect(H, c, m)[c.n])
      && (l.Br? ==> H'[l.n] == H[l.n].(parent := m)) && (r.Br? ==> H'[r.n] == H[r.n].(parent := m))
      && forall k :: k in H && (!c.Top? ==> k != c.n) && (l.Br? ==> k != l.n) && (r.Br? ==> k != r.n) ==> H'[k] == H[k]
  {
  }

  lemma AdoptedElsewhere(H: Store, H': Store, t: Tree, was: Node, par: Node)
    requires Holds(H, t, was) && Distinct(t)
    requires t.Br? ==> t.n in H' && H'[t.n] == H[t.n].(parent := par)
    requires forall k :: k in Nodes(t) && k in H && k != RootOf(t) ==> k in H' && H'[k] == H[k]
    ensures Holds(H', t, par)
  {
    if t.Br? {
      Adopted(H, t, was, par);
      HoldsFrame(SetParent(H, t.n, par), H', t, par);
    }
  }

  /** The same separation with another node. */
  lemma Renamed(c: Path, l: Tree, n: Node, red: bool, r: Tree, m: Node)
    requires Separate(c, Br(l, n, red, r)) && m !in PathNodes(c) + Nodes(Br(l, n, red, r))
    ensures Separate(c, Br(l, m, red, r)) && m !in Nodes(l) && m !in Nodes(r) && m !in PathNodes(c)
    ensures PathNodes(c) + Nodes(Br(l, m, red, r)) == PathNodes(c) + Nodes(Br(l, n, red, r)) - {n} + {m}
  {
    assert Nodes(Br(l, m, red, r)) == Nodes(l) + {m} + Nodes(r) && Nodes(Br(l, n, red, r)) == Nodes(l) + {n} + Nodes(r);
    Renaming(PathNodes(c), Nodes(l), Nodes(r), n, m);
  }

  lemma Renaming(a: set<Node>, l: set<Node>, r: set<Node>, n: Node, m: Node)
    requires n !in a && n !in l && n !in r && m !in a && m !in l && m !in r
    ensures a + (l + {m} + r) == a + (l + {n} + r) - {n} + {m}
  {
  }

  lemma SwappedOut(a: set<Node>, n: Node, m: Node)
    requires n in a && m in a && n != m
    ensures a - {m} - {n} + {m} == a - {n}
  {
  }

  /** A node outside the store takes the place of a node inside. */
  lemma TakePlaceAt(H: Store, root: Node?, c: Path, l: Tree, n: Node, red: bool, r: Tree, m: Node)
    requires At(H, root, c, Br(l, n, red, r)) && m !in H
    ensures n in H && H[n].left == RootOf(l) && H[n].right == RootOf(r) && H[n].parent == ParentOf(c)
    ensures !c.Top? ==> c.n in H && c.n != n && c.n != m
    ensures l.Br? ==> l.n in H && l.n != n && l.n != m
    ensures r.Br? ==> r.n in H && r.n != n && r.n != m
    ensures At(TookPlace(H, c, n, m) - {n}, if c.Top? then m else root, c, Br(l, m, red, r))
    ensures (TookPlace(H, c, n, m) - {n}).Keys == H.Keys - {n} + {m}
  {
    PathEnd(c);
    RootInNodes(l);
    RootInNodes(r);
    Renamed(c, l, n, red, r, m);
    assert l.Br? ==> l.n in H;
    assert r.Br? ==> r.n in H;
    TookPlaceCells(H, c, l, n, r, m);
    var H' := TookPlace(H, c, n, m);
    var G := H' - {n};
    assert G.Keys == H.Keys - {n} + {m};
    TookPlaceHolds(H, G, root, c, l, n, red, r, m);
  }

  lemma TookPlaceHolds(H: Store, G: Store, root: Node?, c: Path, l: Tree, n: Node, red: bool, r: Tree, m: Node)
    requires At(H, root, c, Br(l, n, red, r)) && m !in H && Separate(c, Br(l, m, red, r))
    requires m in G && G[m] == H[n]
    requires !c.Top? ==> c.n in H && c.n in G && G[c.n] == Redirect(H, c, m)[c.n]
    requires l.Br? ==> l.n in G && G[l.n] == H[l.n].(parent := m)
    requires r.Br? ==> r.n in G && G[r.n] == H[r.n].(parent := m)
    requires forall k ::
      k in H && k != n && (!c.Top? ==> k != c.n) && (l.Br? ==> k != l.n) && (r.Br? ==> k != r.n) ==>
        k in G && G[k] == H[k]
    ensures Holds(G, Br(l, m, red, r), ParentOf(c)) && HoldsPath(G, c, m, if c.Top? then m else root)
  {
    RootInNodes(l);
    RootInNodes(r);
    PathEnd(c);
    AdoptedElsewhere(H, G, l, n, m);
    AdoptedElsewhere(H, G, r, n, m);
    Redirected(H, c, n, m, root);
    HoldsPathFrame(Redirect(H, c, m), G, c, m, if c.Top? then m else root);
  }

  /** The last node of a path inside a subtree is the node above the subtree exactly when the path is empty. */
  lemma OverParent(d: Path, b: Path, H: Store, root: Node?, u: Tree)
    requires At(H, root, Over(d, b), u) && !b.Top?
    ensures ParentOf(Over(d, b)) == b.n <==> d.Top?
  {
    if !d.Top? { OverNodes(d.up, b); }
  }

  lemma {:induction false} OverNodes(d: Path, b: Path)
    requires !b.Top?
    ensures b.n in PathNodes(Over(d, b))
  {
    if !d.Top? { OverNodes(d.up, b); }
  }

  /** The position of a node of the tree. */
  lemma Position(H: Store, root: Node?, t: Tree, n: Node) returns (c: Path, u: Tree)
    requires At(H, root, Top, t) && n in H
    ensures u.Br? && u.n == n && Plug(c, u) == t && At(H, root, c, u)
  {
    c, u := Locate(Top, t, n);
    AtPlug(H, root, c, u);
  }

  function First(s: seq<Node>): Node? { if s == [] then null else s[0] }

  function Last(s: seq<Node>): Node? { if s == [] then null else s[|s| - 1] }

  lemma AfterLeft(c: Path)
    ensures c.InL? ==> First(After(c)) == c.n
  {
  }

  lemma FirstOf(d: Path, s: Tree)
    requires s.Br? && s.l.Leaf? && Before(d) == []
    ensures InOrder(Plug(d, s)) != [] && First(InOrder(Plug(d, s))) == s.n
  {
    PlugInOrder(d, s);
    assert InOrder(s) == [s.n] + InOrder(s.r);
  }

  /** What follows a node in order: its right subtree, and then what follows its position. */
  lemma FollowingAt(c: Path, t: Tree)
    requires t.Br? && Sorted(Whole(c, t))
    ensures var s := Whole(c, t);
      forall k :: 0 <= k < |s| && s[k] == t.n ==>
          First(s[k + 1..]) == if t.r.Br? then First(InOrder(t.r)) else First(After(c))
  {
    var s, i := Whole(c, t), |Before(c)| + |InOrder(t.l)|;
    WholeAt(c, t);
    assert s[i] == t.n && s[i + 1..] == InOrder(t.r) + After(c);
    forall k | 0 <= k < |s| && s[k] == t.n
      ensures First(s[k + 1..]) == if t.r.Br? then First(InOrder(t.r)) else First(After(c))
    {
      SortedUnique(s, i, k);
    }
  }

  /** The end of a path that always went left, or always right, is the first or the last node. */
  lemma EndOfSpine(c: Path)
    ensures Before(c) == [] ==> ParentOf(c) == First(Whole(c, Leaf))
    ensures After(c) == [] ==> ParentOf(c) == Last(Whole(c, Leaf))
  {
  }

  class Head {
    var root: Node?
    ghost var store: Store
    ghost var tree: Tree

    /** RB_INITIALIZER. */
    constructor ()
      ensures Valid() && Elems() == [] && store == map[]
    {
      root, store, tree := null, map[], Leaf;
    }

    /** The ghost store shows the link fields as they are. */
    ghost predicate Mirrors()
      reads this, store.Keys`left, store.Keys`right, store.Keys`parent, store.Keys`red
    {
      forall n :: n in store ==> store[n] == Links(n.left, n.right, n.parent, n.red)
    }

    ghost predicate Shows(c: Path, t: Tree)
      reads this, store.Keys`left, store.Keys`right, store.Keys`parent, store.Keys`red
    {
      Mirrors() && At(store, root, c, t)
    }

    method PutLeft(n: Node, v: Node?)
      requires Mirrors() && n in store
      modifies n`left, this`store
      ensures Mirrors() && store == SetLeft(old(store), n, v)
    {
      n.left := v;
      store := SetLeft(store, n, v);
    }

    method PutRight(n: Node, v: Node?)
      requires Mirrors() && n in store
      modifies n`right, this`store
      ensures Mirrors() && store == SetRight(old(store), n, v)
    {
      n.right := v;
      store := SetRight(store, n, v);
    }

    method PutParent(n: Node, v: Node?)
      requires Mirrors() && n in store
      modifies n`parent, this`store
      ensures Mirrors() && store == SetParent(old(store), n, v)
    {
      n.parent := v;
      store := SetParent(store, n, v);
    }

    method PutRed(n: Node, v: bool)
      requires Mirrors() && n in store
      modifies n`red, this`store
      ensures Mirrors() && store == SetRed(old(store), n, v)
    {
      n.red := v;
      store := SetRed(store, n, v);
    }

    method AdoptChild(child: Node?, par: Node?)
      requires Mirrors() && (child != null ==> child in store)
      modifies Just(child)`parent, this`store
      ensures Mirrors() && store == SetChildParent(old(store), child, par)
    {
      if child != null { PutParent(child, par); }
    }

    method PutLeftChild(n: Node, child: Node?)
      requires Mirrors() && n in store && (child != null ==> child in store)
      modifies n`left, Just(child)`parent, this`store
      ensures Mirrors() && store == SetLeftChild(old(store), n, child)
    {
      PutLeft(n, child);
      AdoptChild(child, n);
    }

    method PutRightChild(n: Node, child: Node?)
      requires Mirrors() && n in store && (child != null ==> child in store)
      modifies n`right, Just(child)`parent, this`store
      ensures Mirrors() && store == SetRightChild(old(store), n, child)
    {
      PutRight(n, child);
      AdoptChild(child, n);
    }

    /** The link that leads to `from` (a child field of its parent `par`, or the root) now leads to `to`. */
    method ReplaceChild(par: Node?, from: Node, to: Node?, ghost c: Path)
      requires Mirrors() && par == ParentOf(c) && (!c.Top? ==> c.n in store)
      requires c.InL? ==> store[c.n].left == from
      requires c.InR? ==> store[c.n].left != from
      modifies this`root, this`store, Just(par)`left, Just(par)`right
      ensures Mirrors() && store == Redirect(old(store), c, to)
      ensures root == if c.Top? then to else old(root)
    {
      if par != null {
        if par.left == from {
          PutLeft(par, to);
        } else {
          PutRight(par, to);
        }
      } else {
        root := to;
      }
    }

    /** `tmp` is linked where `elm` hung. */
    method Hoist(elm: Node, tmp: Node, ghost c: Path)
      requires Mirrors() && HoistReady(store, c, elm, tmp)
      modifies this`root, this`store, tmp`parent, Just(ParentOf(c))`left, Just(ParentOf(c))`right
      ensures Mirrors() && store == Hoisted(old(store), c, tmp)
      ensures root == if c.Top? then tmp else old(root)
    {
      PutParent(tmp, elm.parent);
      ReplaceChild(elm.parent, elm, tmp, c);
    }

    /** RB_ROTATE_LEFT. */
    method RotateLeft(elm: Node, ghost c: Path, ghost t: Tree)
      requires t.Br? && t.r.Br? && elm == t.n && Shows(c, t)
      modifies this`root, this`store, store.Keys`left, store.Keys`right, store.Keys`parent, store.Keys`red
      ensures Shows(c, RotL(t)) && store.Keys == old(store.Keys)
    {
      hide At, RotL, HoistReady;
      ghost var goal := RotLAt(store, root, c, t);
      var tmp := elm.right;
      PutRightChild(elm, tmp.left);
      Hoist(elm, tmp, c);
      PutLeftChild(tmp, elm);
      assert store == goal;
    }

    /** RB_ROTATE_RIGHT. */
    method RotateRight(elm: Node, ghost c: Path, ghost t: Tree)
      requires t.Br? && t.l.Br? && elm == t.n && Shows(c, t)
      modifies this`root, this`store, store.Keys`left, store.Keys`right, store.Keys`parent, store.Keys`red
      ensures Shows(c, RotR(t)) && store.Keys == old(store.Keys)
    {
      hide At, RotR, HoistReady;
      ghost var goal := RotRAt(store, root, c, t);
      var tmp := elm.left;
      PutLeftChild(elm, tmp.right);
      Hoist(elm, tmp, c);
      PutRightChild(tmp, elm);
      assert store == goal;
    }

    /** A colour assignment at the position `t`. */
    method SetColour(n: Node, red: bool, ghost c: Path, ghost t: Tree)
      requires Shows(c, t) && t.Br? && t.n == n
      modifies this`store, store.Keys`left, store.Keys`right, store.Keys`parent, store.Keys`red
      ensures Shows(c, t.(red := red)) && store.Keys == old(store.Keys)
    {
      hide At;
      RecolourAt(store, root, c, t.l, n, t.red, t.r, red);
      PutRed(n, red);
    }

    /** Red uncle on the right: it and the parent become black, the grandparent red. */
    method PushRedUpLeft(uncle: Node, parent: Node, gparent: Node, ghost c: Path, ghost P: Tree, ghost u: Tree)
      requires Shows(c, Br(P, gparent, false, u)) && P.Br? && P.n == parent && u.Br? && u.n == uncle
      modifies this`store, store.Keys`left, store.Keys`right, store.Keys`parent, store.Keys`red
      ensures Shows(c, Br(Recoloured(P, false), gparent, true, Recoloured(u, false))) && store.Keys == old(store.Keys)
    {
      hide At;
      ZipDown(store, root, c, Br(P, gparent, false, u));
      SetColour(uncle, false, InR(P, gparent, false, c), u);
      ghost var u', P' := Recoloured(u, false), Recoloured(P, false);
      ZipDown(store, root, c, Br(P, gparent, false, u'));
      SetColour(parent, false, InL(c, gparent, false, u'), P);
      ZipDown(store, root, c, Br(P', gparent, false, u'));
      SetColour(gparent, true, c, Br(P', gparent, false, u'));
    }

    /** Black uncle on the right, red node on the outer side: recolour and rotate the grandparent right. */
    method RotateOuterLeft(parent: Node, gparent: Node, ghost c: Path, ghost P: Tree, ghost u: Tree)
      requires Shows(c, Br(P, gparent, false, u)) && P.Br? && P.n == parent
      modifies this`root, this`store, store.Keys`left, store.Keys`right, store.Keys`parent, store.Keys`red
      ensures Shows(InL(c, parent, false, Br(P.r, gparent, true, u)), P.l) && store.Keys == old(store.Keys)
    {
      hide At;
      ZipDown(store, root, c, Br(P, gparent, false, u));
      SetColour(parent, false, InL(c, gparent, false, u), P);
      ghost var P' := Recoloured(P, false);
      ZipDown(store, root, c, Br(P', gparent, false, u));
      SetColour(gparent, true, c, Br(P', gparent, false, u));
      RotateRight(gparent, c, Br(P', gparent, true, u));
      ZipDown(store, root, c, Br(P.l, parent, false, Br(P.r, gparent, true, u)));
    }

    /** One iteration of RB_INSERT_COLOR when the parent is a left child. */
    method InsertStepLeft(elm: Node, parent: Node, gparent: Node, ghost c: Path, ghost t: Tree)
      returns (elm': Node, ghost c': Path, ghost t': Tree)
      requires Shows(c, t) && RedFocus(c, t) && RedAbove(c) && t.n == elm && c.n == parent
      requires c.up.InL? && c.up.n == gparent
      modifies this`root, this`store, store.Keys`left, store.Keys`right, store.Keys`parent, store.Keys`red
      ensures Shows(c', t') && RedFocus(c', t') && t'.n == elm' && store.Keys == old(store.Keys)
      ensures Whole(c', t') == Whole(c, t)
      ensures Depth(c') < Depth(c) || !RedAbove(c')
    {
      hide At, PathColoured, Coloured, Whole;
      ghost var up, u, P := c.up.up, c.up.r, Above(c, t);
      UncleRecolours(c, t);
      ZipUp(store, root, c, t);
      ZipUp(store, root, c.up, P);
      LinkedAt(store, root, up, Br(P, gparent, false, u));
      UncleLinks(store, root, up, Br(P, gparent, false, u));
      var tmp := gparent.right;
      if tmp != null && tmp.red {
        PushRedUpLeft(tmp, parent, gparent, up, P, u);
        elm', c', t' := gparent, up, Br(Recoloured(P, false), gparent, true, Recoloured(u, false));
        WholeTwoUp(c, t, t');
        return;
      }
      elm', c', t' := elm, c, t;
      var parent' := parent;
      LinkedAt(store, root, c, t);
      if parent.right == elm {
        InnerRotation(c, t);
        RotateLeft(parent, c.up, P);
        elm', parent' := parent, elm;
        c', t' := InL(c.up, elm, true, t.r), Br(c.l, parent, true, t.l);
        AbovePlug(c, t);
        AbovePlug(c', t');
        WholeSame(c.up, RotL(P), P);
      }
      OuterRotation(c', t');
      ghost var c1, P1 := c', Above(c', t');
      ZipUp(store, root, c.up, P1);
      RotateOuterLeft(parent', gparent, up, P1, u);
      c' := InL(up, parent', false, Br(c1.r, gparent, true, u));
      AbovePlug(c', t');
      WholeTwoUp(c1, t', RotR(Br(P1, gparent, false, u)));
      ColourlessOrder(P1.l, P1.n, P1.red, P1.r, gparent, false, u, false, true);
      WholeSame(up, RotR(Br(P1, gparent, false, u)), Above(c', t'));
    }

    /** Red uncle on the left: it and the parent become black, the grandparent red. */
    method PushRedUpRight(uncle: Node, parent: Node, gparent: Node, ghost c: Path, ghost P: Tree, ghost u: Tree)
      requires Shows(c, Br(u, gparent, false, P)) && P.Br? && P.n == parent && u.Br? && u.n == uncle
      modifies this`store, store.Keys`left, store.Keys`right, store.Keys`parent, store.Keys`red
      ensures Shows(c, Br(Recoloured(u, false), gparent, true, Recoloured(P, false))) && store.Keys == old(store.Keys)
    {
      hide At;
      ZipDown(store, root, c, Br(u, gparent, false, P));
      SetColour(uncle, false, InL(c, gparent, false, P), u);
      ghost var u', P' := Recoloured(u, false), Recoloured(P, false);
      ZipDown(store, root, c, Br(u', gparent, false, P));
      SetColour(parent, false, InR(u', gparent, false, c), P);
      ZipDown(store, root, c, Br(u', gparent, false, P'));
      SetColour(gparent, true, c, Br(u', gparent, false, P'));
    }

    /** Black uncle on the left, red node on the outer side: recolour and rotate the grandparent left. */
    method RotateOuterRight(parent: Node, gparent: Node, ghost c: Path, ghost P: Tree, ghost u: Tree)
      requires Shows(c, Br(u, gparent, false, P)) && P.Br? && P.n == parent
      modifies this`root, this`store, store.Keys`left, store.Keys`right, store.Keys`parent, store.Keys`red
      ensures Shows(InR(Br(u, gparent, true, P.l), parent, false, c), P.r) && store.Keys == old(store.Keys)
    {
      hide At;
      ZipDown(store, root, c, Br(u, gparent, false, P));
      SetColour(parent, false, InR(u, gparent, false, c), P);
      ghost var P' := Recoloured(P, false);
      ZipDown(store, root, c, Br(u, gparent, false, P'));
      SetColour(gparent, true, c, Br(u, gparent, false, P'));
      RotateLeft(gparent, c, Br(u, gparent, true, P'));
      ZipDown(store, root, c, Br(Br(u, gparent, true, P.l), parent, false, P.r));
    }

    /** One iteration of RB_INSERT_COLOR when the parent is a right child. */
    method InsertStepRight(elm: Node, parent: Node, gparent: Node, ghost c: Path, ghost t: Tree)
      returns (elm': Node, ghost c': Path, ghost t': Tree)
      requires Shows(c, t) && RedFocus(c, t) && RedAbove(c) && t.n == elm && c.n == parent
      requires c.up.InR? && c.up.n == gparent
      modifies this`root, this`store, store.Keys`left, store.Keys`right, store.Keys`parent, store.Keys`red
      ensures Shows(c', t') && RedFocus(c', t') && t'.n == elm' && store.Keys == old(store.Keys)
      ensures Whole(c', t') == Whole(c, t)
      ensures Depth(c') < Depth(c) || !RedAbove(c')
    {
      hide At, PathColoured, Coloured, Whole;
      ghost var up, u, P := c.up.up, c.up.l, Above(c, t);
      UncleRecolours(c, t);
      ZipUp(store, root, c, t);
      ZipUp(store, root, c.up, P);
      LinkedAt(store, root, up, Br(u, gparent, false, P));
      UncleLinks(store, root, up, Br(u, gparent, false, P));
      var tmp := gparent.left;
      if tmp != null && tmp.red {
        PushRedUpRight(tmp, parent, gparent, up, P, u);
        elm', c', t' := gparent, up, Br(Recoloured(u, false), gparent, true, Recoloured(P, false));
        WholeTwoUp(c, t, t');
        return;
      }
      elm', c', t' := elm, c, t;
      var parent' := parent;
      LinkedAt(store, root, c, t);
      if parent.left == elm {
        InnerRotation(c, t);
        RotateRight(parent, c.up, P);
        elm', parent' := parent, elm;
        c', t' := InR(t.l, elm, true, c.up), Br(t.r, parent, true, c.r);
        AbovePlug(c, t);
        AbovePlug(c', t');
        WholeSame(c.up, RotR(P), P);
      }
      OuterRotation(c', t');
      ghost var c1, P1 := c', Above(c', t');
      ZipUp(store, root, c.up, P1);
      RotateOuterRight(parent', gparent, up, P1, u);
      c' := InR(Br(u, gparent, true, c1.l), parent', false, up);
      AbovePlug(c', t');
      WholeTwoUp(c1, t', RotL(Br(u, gparent, false, P1)));
      ColourlessOrder(u, gparent, false, P1.l, P1.n, P1.red, P1.r, true, false);
      WholeSame(up, RotL(Br(u, gparent, false, P1)), Above(c', t'));
    }

    /** RB_INSERT_COLOR: restores the colour laws above a red node. */
    method InsertColor(elm0: Node, ghost c0: Path, ghost t0: Tree) returns (ghost result: Tree)
      requires Shows(c0, t0) && RedFocus(c0, t0) && t0.n == elm0
      modifies this`root, this`store, store.Keys`left, store.Keys`right, store.Keys`parent, store.Keys`red
      ensures Shows(Top, result) && store.Keys == old(store.Keys)
      ensures Coloured(result) && !IsRed(result) && InOrder(result) == Whole(c0, t0)
    {
      hide At, PathColoured, Coloured, Whole;
      var elm, parent := elm0, elm0.parent;
      ghost var c, t := c0, t0;
      LinkedAt(store, root, c, t);
      while parent != null && parent.red
        invariant Shows(c, t) && RedFocus(c, t) && t.n == elm && store.Keys == old(store.Keys)
        invariant Whole(c, t) == Whole(c0, t0)
        invariant parent == ParentOf(c) && (parent != null ==> parent.red == c.red)
        decreases if RedAbove(c) then 1 + Depth(c) else 0
      {
        UncleRecolours(c, t);
        ZipUp(store, root, c, t);
        LinkedAt(store, root, c.up, Above(c, t));
        var gparent := parent.parent;
        if parent == gparent.left {
          elm, c, t := InsertStepLeft(elm, parent, gparent, c, t);
        } else {
          elm, c, t := InsertStepRight(elm, parent, gparent, c, t);
        }
        LinkedAt(store, root, c, t);
        parent := elm.parent;
      }
      result := Plug(c, t);
      AtPlug(store, root, c, t);
      PlugRoot(c, t);
      LinkedAt(store, root, Top, result);
      SetColour(root, false, Top, result);
      result := Recoloured(result, false);
    }

    /** The invariant of RB trees. */
    ghost predicate Valid()
      reads this, store.Keys`left, store.Keys`right, store.Keys`parent, store.Keys`red
    {
      Shows(Top, tree) && Coloured(tree) && !IsRed(tree) && Sorted(InOrder(tree))
    }

    /** The nodes in key order. */
    ghost function Elems(): seq<Node>
      reads this
    {
      InOrder(tree)
    }

    /** The loop shared by RB_FIND and RB_INSERT: walks down to the key, or to the leaf where it belongs. */
    method Search(key: string) returns (hit: Node?, parent: Node?, comp: int, ghost c: Path, ghost t: Tree)
      requires Valid()
      ensures Shows(c, t) && Plug(c, t) == tree
      ensures hit == RootOf(t) && (hit != null ==> hit.key == key)
      ensures hit == null ==> t == Leaf && parent == ParentOf(c) && Between(c, key)
      ensures hit == null ==> (c.InL? ==> comp < 0) && (c.InR? ==> comp > 0)
    {
      hide At, Sorted, Whole, Between;
      c, t := Top, tree;
      comp := 0;
      parent := null;
      hit := root;
      EmptyBounds(key);
      AtPlug(store, root, c, t);
      WholeTree(c, t);
      RootAt(store, root, c, t);
      while hit != null
        invariant Shows(c, t) && Plug(c, t) == tree && hit == RootOf(t) && parent == ParentOf(c)
        invariant Between(c, key) && (c.InL? ==> comp < 0) && (c.InR? ==> comp > 0)
        invariant Sorted(Whole(c, t))
        decreases t
      {
        parent := hit;
        comp := StrCmp(key, parent.key);
        LinkedAt(store, root, c, t);
        SearchStep(c, t.l, t.n, t.red, t.r, key);
        ZipDown(store, root, c, t);
        WholeUp(c, t.l, t.n, t.red, t.r);
        if comp < 0 {
          hit := hit.left;
          c, t := InL(c, t.n, t.red, t.r), t.l;
        } else if comp > 0 {
          hit := hit.right;
          c, t := InR(t.l, t.n, t.red, c), t.r;
        } else {
          StrCmpZero(key, parent.key);
          return;
        }
      }
    }

    /** RB_FIND. */
    method Find(key: string) returns (hit: Node?)
      requires Valid()
      ensures hit != null ==> hit in Elems() && hit.key == key
      ensures hit == null <==> !HasKey(Elems(), key)
    {
      var parent, comp;
      ghost var c, t;
      hit, parent, comp, c, t := Search(key);
      PlugInOrder(c, t);
      if hit == null {
        NoKeyBetween(c, key);
      } else {
        assert InOrder(t)[|InOrder(t.l)|] == hit;
        assert Elems()[|Before(c)| + |InOrder(t.l)|] == hit;
      }
    }

    /** RB_SET, and the link from the parent. */
    method LinkLeaf(elm: Node, parent: Node?, comp: int, ghost c: Path)
      requires Shows(c, Leaf) && elm !in store && parent == ParentOf(c)
      requires (c.InL? ==> comp < 0) && (c.InR? ==> comp > 0)
      modifies this`root, this`store, store.Keys`left, store.Keys`right, store.Keys`parent, store.Keys`red, elm`left,
          elm`right, elm`parent, elm`red
      ensures Shows(c, Br(Leaf, elm, true, Leaf)) && store.Keys == old(store.Keys) + {elm}
    {
      hide At;
      LeafAt(store, root, c, elm);
      ghost var H := store[elm := Links(null, null, parent, true)];
      elm.parent := parent;
      elm.left, elm.right := null, null;
      elm.red := true;
      store := H;
      if parent != null {
        if comp < 0 {
          PutLeft(parent, elm);
        } else {
          PutRight(parent, elm);
        }
      } else {
        root := elm;
      }
    }

    /** RB_INSERT: links `elm` where its key belongs, unless the key is present. */
    method Insert(elm: Node) returns (dup: Node?)
      requires Valid() && elm !in store
      modifies this, store.Keys`left, store.Keys`right, store.Keys`parent, store.Keys`red, elm`left, elm`right,
          elm`parent, elm`red
      ensures Valid()
      ensures dup == null <==> !HasKey(old(Elems()), elm.key)
      ensures dup != null ==>
        dup in Elems() && dup.key == elm.key && tree == old(tree) && store == old(store) && root == old(root)
      ensures dup != null ==> unchanged(elm) && unchanged(old(store.Keys))
      ensures dup == null ==> store.Keys == old(store.Keys) + {elm}
      ensures dup == null ==>
        exists k :: 0 <= k <= |old(Elems())| && Elems() == old(Elems())[..k] + [elm] + old(Elems())[k..]
    {
      hide At, Sorted, Whole, Between, Coloured, PathColoured, BlackHeight, RedFocus, HasKey, InOrder, Before, After;
      hide Plug, IsRed;
      var parent, comp;
      ghost var c, t;
      dup, parent, comp, c, t := Search(elm.key);
      WholeTree(c, t);
      if dup != null {
        HitInOrder(c, t);
        return;
      }
      NoKeyBetween(c, elm.key);
      SortedInsert(c, elm);
      RedLeaf(c, elm);
      LinkLeaf(elm, parent, comp, c);
      tree := InsertColor(elm, c, Br(Leaf, elm, true, Leaf));
      Slices(Before(c), After(c));
    }

    // ----- RB_REMOVE_COLOR -----

    /** A colour assignment at the sibling. */
    method SetSiblingColour(n: Node, red: bool, ghost c: Path, ghost t: Tree)
      requires Shows(c, t) && !c.Top? && Sibling(c).Br? && Sibling(c).n == n
      modifies this`store, store.Keys`left, store.Keys`right, store.Keys`parent, store.Keys`red
      ensures Shows(WithSibling(c, Recoloured(Sibling(c), red)), t) && store.Keys == old(store.Keys)
    {
      hide At;
      AtSibling(store, root, c, t);
      SetColour(n, red, SiblingPath(c, t), Sibling(c));
      AtSibling(store, root, WithSibling(c, Recoloured(Sibling(c), red)), t);
    }

    /** A colour assignment at the parent. */
    method SetParentColour(n: Node, red: bool, ghost c: Path, ghost t: Tree)
      requires Shows(c, t) && !c.Top? && c.n == n
      modifies this`store, store.Keys`left, store.Keys`right, store.Keys`parent, store.Keys`red
      ensures Shows(if c.InL? then InL(c.up, n, red, c.r) else InR(c.l, n, red, c.up), t)
        && store.Keys == old(store.Keys)
    {
      hide At;
      ZipUp(store, root, c, t);
      SetColour(n, red, c.up, Above(c, t));
      ZipUp(store, root, if c.InL? then InL(c.up, n, red, c.r) else InR(c.l, n, red, c.up), t);
    }

    /** Red sibling of a left child: recolour, rotate the parent left. */
    method RedSiblingLeft(tmp: Node, parent: Node, ghost c: Path, ghost t: Tree)
      requires Shows(c, t) && c.InL? && c.n == parent && c.r.Br? && c.r.n == tmp
      modifies this`root, this`store, store.Keys`left, store.Keys`right, store.Keys`parent, store.Keys`red
      ensures Shows(AfterRedSibling(c), t) && store.Keys == old(store.Keys)
    {
      hide At;
      SetSiblingColour(tmp, false, c, t);
      ghost var s := Recoloured(c.r, false);
      SetParentColour(parent, true, InL(c.up, parent, c.red, s), t);
      ZipUp(store, root, InL(c.up, parent, true, s), t);
      RotateLeft(parent, c.up, Br(t, parent, true, s));
      ZipDown(store, root, c.up, Br(Br(t, parent, true, s.l), tmp, false, s.r));
      ZipDown(store, root, InL(c.up, tmp, false, s.r), Br(t, parent, true, s.l));
    }

    /** Only the near nephew red: recolour, rotate the sibling right. */
    method NearNephewLeft(tmp: Node, parent: Node, ghost c: Path, ghost t: Tree)
      requires Shows(c, t) && c.InL? && c.n == parent && c.r.Br? && c.r.n == tmp && c.r.l.Br?
      modifies this`root, this`store, store.Keys`left, store.Keys`right, store.Keys`parent, store.Keys`red
      ensures Shows(WithSibling(c, NearRotated(c)), t) && store.Keys == old(store.Keys)
    {
      hide At;
      SiblingLinks(store, root, c, t);
      AtSibling(store, root, c, t);
      ghost var q, s := SiblingPath(c, t), c.r;
      ZipDown(store, root, q, s);
      var oleft := tmp.left;
      if oleft != null {
        SetColour(oleft, false, InL(q, s.n, s.red, s.r), s.l);
      }
      ghost var x := Recoloured(s.l, false);
      ZipDown(store, root, q, Br(x, s.n, s.red, s.r));
      SetColour(tmp, true, q, Br(x, s.n, s.red, s.r));
      RotateRight(tmp, q, Br(x, s.n, true, s.r));
      AtSibling(store, root, WithSibling(c, NearRotated(c)), t);
    }

    /** Far nephew red: recolour, rotate the parent left; the colour laws hold again. */
    method FarNephewLeft(tmp: Node, parent: Node, ghost c: Path, ghost t: Tree)
      requires Shows(c, t) && c.InL? && c.n == parent && c.r.Br? && c.r.n == tmp && c.r.r.Br?
      modifies this`root, this`store, store.Keys`left, store.Keys`right, store.Keys`parent, store.Keys`red
      ensures Shows(c.up, FarRotated(c, t)) && store.Keys == old(store.Keys)
    {
      hide At;
      SiblingLinks(store, root, c, t);
      ghost var s, f := c.r, Recoloured(c.r.r, false);
      SetSiblingColour(tmp, parent.red, c, t);
      ghost var s1 := Recoloured(s, c.red);
      SetParentColour(parent, false, InL(c.up, parent, c.red, s1), t);
      ghost var c1 := InL(c.up, parent, false, s1);
      SiblingLinks(store, root, c1, t);
      AtSibling(store, root, c1, t);
      ZipDown(store, root, SiblingPath(c1, t), s1);
      if tmp.right != null {
        SetColour(tmp.right, false, InR(s1.l, s1.n, s1.red, SiblingPath(c1, t)), s1.r);
      }
      ghost var s2 := Br(s1.l, s1.n, s1.red, f);
      ZipDown(store, root, SiblingPath(c1, t), s2);
      AtSibling(store, root, WithSibling(c1, s2), t);
      ZipUp(store, root, WithSibling(c1, s2), t);
      RotateLeft(parent, c.up, Br(t, parent, false, s2));
    }

    /** Red sibling of a right child: recolour, rotate the parent right. */
    method RedSiblingRight(tmp: Node, parent: Node, ghost c: Path, ghost t: Tree)
      requires Shows(c, t) && c.InR? && c.n == parent && c.l.Br? && c.l.n == tmp
      modifies this`root, this`store, store.Keys`left, store.Keys`right, store.Keys`parent, store.Keys`red
      ensures Shows(AfterRedSibling(c), t) && store.Keys == old(store.Keys)
    {
      hide At;
      SetSiblingColour(tmp, false, c, t);
      ghost var s := Recoloured(c.l, false);
      SetParentColour(parent, true, InR(s, parent, c.red, c.up), t);
      ZipUp(store, root, InR(s, parent, true, c.up), t);
      RotateRight(parent, c.up, Br(s, parent, true, t));
      ZipDown(store, root, c.up, Br(s.l, tmp, false, Br(s.r, parent, true, t)));
      ZipDown(store, root, InR(s.l, tmp, false, c.up), Br(s.r, parent, true, t));
    }

    /** Only the near nephew red: recolour, rotate the sibling left. */
    method NearNephewRight(tmp: Node, parent: Node, ghost c: Path, ghost t: Tree)
      requires Shows(c, t) && c.InR? && c.n == parent && c.l.Br? && c.l.n == tmp && c.l.r.Br?
      modifies this`root, this`store, store.Keys`left, store.Keys`right, store.Keys`parent, store.Keys`red
      ensures Shows(WithSibling(c, NearRotated(c)), t) && store.Keys == old(store.Keys)
    {
      hide At;
      SiblingLinks(store, root, c, t);
      AtSibling(store, root, c, t);
      ghost var q, s := SiblingPath(c, t), c.l;
      ZipDown(store, root, q, s);
      var oright := tmp.right;
      if oright != null {
        SetColour(oright, false, InR(s.l, s.n, s.red, q), s.r);
      }
      ghost var x := Recoloured(s.r, false);
      ZipDown(store, root, q, Br(s.l, s.n, s.red, x));
      SetColour(tmp, true, q, Br(s.l, s.n, s.red, x));
      RotateLeft(tmp, q, Br(s.l, s.n, true, x));
      AtSibling(store, root, WithSibling(c, NearRotated(c)), t);
    }

    /** Far nephew red: recolour, rotate the parent right; the colour laws hold again. */
    method FarNephewRight(tmp: Node, parent: Node, ghost c: Path, ghost t: Tree)
      requires Shows(c, t) && c.InR? && c.n == parent && c.l.Br? && c.l.n == tmp && c.l.l.Br?
      modifies this`root, this`store, store.Keys`left, store.Keys`right, store.Keys`parent, store.Keys`red
      ensures Shows(c.up, FarRotated(c, t)) && store.Keys == old(store.Keys)
    {
      hide At;
      SiblingLinks(store, root, c, t);
      ghost var s, f := c.l, Recoloured(c.l.l, false);
      SetSiblingColour(tmp, parent.red, c, t);
      ghost var s1 := Recoloured(s, c.red);
      SetParentColour(parent, false, InR(s1, parent, c.red, c.up), t);
      ghost var c1 := InR(s1, parent, false, c.up);
      SiblingLinks(store, root, c1, t);
      AtSibling(store, root, c1, t);
      ZipDown(store, root, SiblingPath(c1, t), s1);
      if tmp.left != null {
        SetColour(tmp.left, false, InL(SiblingPath(c1, t), s1.n, s1.red, s1.r), s1.l);
      }
      ghost var s2 := Br(f, s1.n, s1.red, s1.r);
      ZipDown(store, root, SiblingPath(c1, t), s2);
      AtSibling(store, root, WithSibling(c1, s2), t);
      ZipUp(store, root, WithSibling(c1, s2), t);
      RotateRight(parent, c.up, Br(s2, parent, false, t));
    }

    /** The last rotation at a left child, after which the source leaves its loop. */
    method RemoveLastLeft(tmp: Node, parent: Node, ghost c: Path, ghost t: Tree) returns (ghost t': Tree)
      requires Shows(c, t) && Short(c, t) && !IsRed(t) && c.InL? && c.n == parent
      requires c.r.Br? && c.r.n == tmp && !c.r.red && IsRed(c.r.r)
      modifies this`root, this`store, store.Keys`left, store.Keys`right, store.Keys`parent, store.Keys`red
      ensures Shows(Top, t') && Short(Top, t') && t'.Br? && !IsRed(t') && store.Keys == old(store.Keys)
      ensures Whole(Top, t') == Whole(c, t)
    {
      hide At, Coloured, PathColoured, ColouredBelow, Whole, BlackHeight;
      ShortFarNephew(c, t);
      FarRotatedOrder(c, t);
      FarNephewLeft(tmp, parent, c, t);
      t' := LastTree(c, t);
      AtPlug(store, root, c.up, FarRotated(c, t));
    }

    /** One iteration of RB_REMOVE_COLOR at a left child; `last` when the source breaks out of its loop. */
    method RemoveStepLeft(parent: Node, ghost c: Path, ghost t: Tree)
      returns (last: bool, ghost c': Path, ghost t': Tree)
      requires Shows(c, t) && Short(c, t) && !IsRed(t) && c.InL? && c.n == parent
      modifies this`root, this`store, store.Keys`left, store.Keys`right, store.Keys`parent, store.Keys`red
      ensures Shows(c', t') && Short(c', t') && Whole(c', t') == Whole(c, t) && store.Keys == old(store.Keys)
      ensures last ==> c'.Top? && t'.Br? && !IsRed(t')
      ensures !last ==> RootOf(t') == parent && (IsRed(t') || Depth(c') < Depth(c))
    {
      hide At, Short, Whole;
      ShortSibling(c, t);
      SiblingLinks(store, root, c, t);
      c', t' := c, t;
      var tmp := parent.right;
      if tmp.red {
        ShortRedSibling(c, t);
        AfterRedSiblingOrder(c, t);
        RedSiblingLeft(tmp, parent, c, t);
        c' := AfterRedSibling(c);
        ShortSibling(c', t);
        SiblingLinks(store, root, c', t);
        tmp := parent.right;
      }
      last := false;
      if (tmp.left == null || !tmp.left.red) && (tmp.right == null || !tmp.right.red) {
        NephewsUp(c', t);
        SetSiblingColour(tmp, true, c', t);
        c' := WithSibling(c', Recoloured(Sibling(c'), true));
        ZipUp(store, root, c', t);
        c', t' := c'.up, Above(c', t);
        return;
      }
      if tmp.right == null || !tmp.right.red {
        NephewIn(c', t);
        NearNephewLeft(tmp, parent, c', t);
        c' := WithSibling(c', NearRotated(c'));
        SiblingLinks(store, root, c', t);
        tmp := parent.right;
      }
      t' := RemoveLastLeft(tmp, parent, c', t);
      last, c' := true, Top;
    }

    /** The last rotation at a right child, after which the source leaves its loop. */
    method RemoveLastRight(tmp: Node, parent: Node, ghost c: Path, ghost t: Tree) returns (ghost t': Tree)
      requires Shows(c, t) && Short(c, t) && !IsRed(t) && c.InR? && c.n == parent
      requires c.l.Br? && c.l.n == tmp && !c.l.red && IsRed(c.l.l)
      modifies this`root, this`store, store.Keys`left, store.Keys`right, store.Keys`parent, store.Keys`red
      ensures Shows(Top, t') && Short(Top, t') && t'.Br? && !IsRed(t') && store.Keys == old(store.Keys)
      ensures Whole(Top, t') == Whole(c, t)
    {
      hide At, Coloured, PathColoured, ColouredBelow, Whole, BlackHeight;
      ShortFarNephew(c, t);
      FarRotatedOrder(c, t);
      FarNephewRight(tmp, parent, c, t);
      t' := LastTree(c, t);
      AtPlug(store, root, c.up, FarRotated(c, t));
    }

    /** One iteration of RB_REMOVE_COLOR at a right child. */
    method RemoveStepRight(parent: Node, ghost c: Path, ghost t: Tree)
      returns (last: bool, ghost c': Path, ghost t': Tree)
      requires Shows(c, t) && Short(c, t) && !IsRed(t) && c.InR? && c.n == parent
      modifies this`root, this`store, store.Keys`left, store.Keys`right, store.Keys`parent, store.Keys`red
      ensures Shows(c', t') && Short(c', t') && Whole(c', t') == Whole(c, t) && store.Keys == old(store.Keys)
      ensures last ==> c'.Top? && t'.Br? && !IsRed(t')
      ensures !last ==> RootOf(t') == parent && (IsRed(t') || Depth(c') < Depth(c))
    {
      hide At, Short, Whole;
      ShortSibling(c, t);
      SiblingLinks(store, root, c, t);
      c', t' := c, t;
      var tmp := parent.left;
      if tmp.red {
        ShortRedSibling(c, t);
        AfterRedSiblingOrder(c, t);
        RedSiblingRight(tmp, parent, c, t);
        c' := AfterRedSibling(c);
        ShortSibling(c', t);
        SiblingLinks(store, root, c', t);
        tmp := parent.left;
      }
      last := false;
      if (tmp.left == null || !tmp.left.red) && (tmp.right == null || !tmp.right.red) {
        NephewsUp(c', t);
        SetSiblingColour(tmp, true, c', t);
        c' := WithSibling(c', Recoloured(Sibling(c'), true));
        ZipUp(store, root, c', t);
        c', t' := c'.up, Above(c', t);
        return;
      }
      if tmp.left == null || !tmp.left.red {
        NephewIn(c', t);
        NearNephewRight(tmp, parent, c', t);
        c' := WithSibling(c', NearRotated(c'));
        SiblingLinks(store, root, c', t);
        tmp := parent.left;
      }
      t' := RemoveLastRight(tmp, parent, c', t);
      last, c' := true, Top;
    }

    /** RB_REMOVE_COLOR: repairs a position that is one black node short. */
    method RemoveColor(parent0: Node?, elm0: Node?, ghost c0: Path, ghost t0: Tree) returns (ghost result: Tree)
      requires Shows(c0, t0) && Short(c0, t0) && elm0 == RootOf(t0) && parent0 == ParentOf(c0)
      modifies this`root, this`store, store.Keys`left, store.Keys`right, store.Keys`parent, store.Keys`red
      ensures Shows(Top, result) && store.Keys == old(store.Keys)
      ensures Coloured(result) && !IsRed(result) && InOrder(result) == Whole(c0, t0)
    {
      hide At, Short, Whole;
      var parent, elm := parent0, elm0;
      ghost var c, t := c0, t0;
      FocusLinks(store, root, c, t);
      while (elm == null || !elm.red) && elm != root
        invariant Shows(c, t) && Short(c, t) && elm == RootOf(t) && parent == ParentOf(c)
          && store.Keys == old(store.Keys)
        invariant Whole(c, t) == Whole(c0, t0)
        invariant elm == root <==> c.Top?
        invariant elm != null ==> elm.red == t.red
        decreases if IsRed(t) then 0 else 1 + Depth(c)
      {
        var last;
        ParentLinks(store, root, c, t);
        if parent.left == elm {
          last, c, t := RemoveStepLeft(parent, c, t);
        } else {
          last, c, t := RemoveStepRight(parent, c, t);
        }
        FocusLinks(store, root, c, t);
        if last {
          elm := root;
          break;
        }
        elm := parent;
        parent := elm.parent;
      }
      result := Blacken(elm, c, t);
    }

    /** `if (elm) RB_COLOR(elm) = RB_BLACK`, which ends the repair. */
    method Blacken(elm: Node?, ghost c: Path, ghost t: Tree) returns (ghost result: Tree)
      requires Shows(c, t) && Short(c, t) && elm == RootOf(t) && (IsRed(t) || c.Top?)
      modifies this`store, store.Keys`left, store.Keys`right, store.Keys`parent, store.Keys`red
      ensures Shows(Top, result) && store.Keys == old(store.Keys)
      ensures Coloured(result) && !IsRed(result) && InOrder(result) == Whole(c, t)
    {
      hide At, Short, Whole;
      ghost var t' := t;
      if elm != null {
        SetColour(elm, false, c, t);
        ShortEnds(c, t);
        t' := Recoloured(t, false);
        WholeSame(c, t, t');
      }
      result := Plug(c, t');
      AtPlug(store, root, c, t');
      WholeTree(c, t');
    }

    // ----- RB_REMOVE -----

    /** The walk to the leftmost node of a subtree. */
    method Leftmost(n: Node, ghost b: Path, ghost r: Tree) returns (elm: Node, ghost d: Path, ghost s: Tree)
      requires Shows(b, r) && r.Br? && r.n == n
      ensures s.Br? && s.n == elm && s.l.Leaf? && Plug(d, s) == r && Before(d) == []
      ensures Shows(Over(d, b), s)
    {
      hide At;
      elm, d, s := n, Top, r;
      LinkedAt(store, root, Over(d, b), s);
      while elm.left != null
        invariant s.Br? && s.n == elm && Plug(d, s) == r && Before(d) == []
        invariant Shows(Over(d, b), s) && elm in store && elm.left == RootOf(s.l)
        decreases s
      {
        ZipDown(store, root, Over(d, b), s);
        elm := elm.left;
        d, s := InL(d, s.n, s.red, s.r), s.l;
        LinkedAt(store, root, Over(d, b), s);
      }
    }

    /** A node that nothing links to any more leaves the store. */
    ghost method Forget(n: Node)
      requires Mirrors()
      modifies this`store
      ensures Mirrors() && store == old(store) - {n}
    {
      store := store - {n};
    }

    /** The common part of both cases of RB_REMOVE: `child` replaces `elm`, which has no other child. */
    method Splice(elm: Node, child: Node?, ghost c: Path, ghost t: Tree, ghost u: Tree)
      requires Shows(c, t) && OnlyChild(t, u) && t.n == elm && child == RootOf(u)
      modifies this`root, this`store, store.Keys`left, store.Keys`right, store.Keys`parent, store.Keys`red
      ensures Shows(c, u) && store.Keys == old(store.Keys) - {elm}
      ensures elm.parent == old(elm.parent)
    {
      hide At;
      LinkedAt(store, root, c, t);
      SpliceAt(store, root, c, t, u);
      ghost var goal := Bypassed(store, c, child);
      var parent := elm.parent;
      AdoptChild(child, parent);
      ReplaceChild(parent, elm, child, c);
      assert store == goal;
      Forget(elm);
    }

    /** `(elm)->field = (old)->field`. */
    method CopyLinks(elm: Node, was: Node)
      requires Mirrors() && was in store && elm !in store
      modifies this`store, elm`left, elm`right, elm`parent, elm`red
      ensures Mirrors() && store == old(store)[elm := old(store)[was]]
    {
      elm.left, elm.right, elm.parent, elm.red := was.left, was.right, was.parent, was.red;
      store := store[elm := store[was]];
    }

    method LinkCopy(elm: Node, was: Node, ghost c: Path)
      requires Mirrors() && was in store && elm !in store && was.parent == ParentOf(c)
      requires !c.Top? ==> c.n in store && c.n != was
      requires c.InL? ==> store[c.n].left == was
      requires c.InR? ==> store[c.n].left != was
      modifies this`root, this`store, elm`left, elm`right, elm`parent, elm`red, Just(was.parent)`left,
          Just(was.parent)`right
      ensures Mirrors() && store == Redirect(old(store)[elm := old(store)[was]], c, elm)
      ensures root == if c.Top? then elm else old(root)
      ensures was.left == old(was.left) && was.right == old(was.right)
    {
      CopyLinks(elm, was);
      ReplaceChild(was.parent, was, elm, c);
    }

    method AdoptBoth(left: Node?, right: Node?, par: Node)
      requires Mirrors() && (left != null ==> left in store) && (right != null ==> right in store)
      modifies Just(left)`parent, Just(right)`parent, this`store
      ensures Mirrors() && store == SetChildParent(SetChildParent(old(store), left, par), right, par)
    {
      AdoptChild(left, par);
      AdoptChild(right, par);
    }

    /** The successor takes over the fields of the removed node, and its neighbours point to the successor. */
    method TakePlace(elm: Node, was: Node, ghost c: Path, ghost t: Tree)
      requires Shows(c, t) && t.Br? && t.n == was && elm !in store
      modifies this`root, this`store, store.Keys`left, store.Keys`right, store.Keys`parent, store.Keys`red, elm`left,
          elm`right, elm`parent, elm`red
      ensures Shows(c, Br(t.l, elm, t.red, t.r)) && store.Keys == old(store.Keys) - {was} + {elm}
    {
      hide At;
      LinkedAt(store, root, c, t);
      TakePlaceAt(store, root, c, t.l, was, t.red, t.r, elm);
      ghost var goal := TookPlace(store, c, was, elm);
      LinkCopy(elm, was, c);
      AdoptBoth(was.left, was.right, elm);
      assert store == goal;
      Forget(was);
      assert At(store, root, c, Br(t.l, elm, t.red, t.r));
    }

    /** RB_REMOVE, a node with two children: its successor is unlinked and takes its place. */
    method RemoveInner(was: Node, ghost c: Path, ghost t: Tree)
      returns (parent: Node?, child: Node?, red: bool, ghost q: Path, ghost u: Tree)
      requires Shows(c, t) && t.Br? && t.n == was && t.l.Br? && t.r.Br?
      requires Coloured(Plug(c, t)) && !IsRed(Plug(c, t))
      modifies this`root, this`store, store.Keys`left, store.Keys`right, store.Keys`parent, store.Keys`red
      ensures Shows(q, u) && store.Keys == old(store.Keys) - {was}
      ensures parent == ParentOf(q) && child == RootOf(u)
      ensures var k := |Before(c)| + |InOrder(t.l)|;
        k < |Whole(c, t)| && Whole(c, t)[k] == was && Whole(q, u) == Without(Whole(c, t), k)
      ensures red ==> PathColoured(q, BlackHeight(u)) && Coloured(u) && !IsRed(u) && !q.Top?
      ensures !red ==> Short(q, u)
    {
      hide At, Whole, Coloured, PathColoured, Short, BlackHeight, Without, Before;
      LinkedAt(store, root, c, t);
      ZipDown(store, root, c, t);
      ghost var b := InR(t.l, was, t.red, c);
      ghost var d, s;
      var elm;
      elm, d, s := Leftmost(was.right, b, t.r);
      SuccessorOrder(c, t, d, s);
      SuccessorColours(c, t, d, s);
      LinkedAt(store, root, Over(d, b), s);
      child := elm.right;
      parent := elm.parent;
      red := elm.red;
      Splice(elm, child, Over(d, b), s, s.r);
      u := s.r;
      ghost var r' := Plug(d, u);
      OverPlug(d, b, u);
      AtPlug(store, root, Over(d, b), u);
      AtPlug(store, root, b, r');
      ZipUp(store, root, b, r');
      if elm.parent == was {
        parent := elm;
      }
      OverParent(d, b, store, root, u);
      SwappedOut(old(store.Keys), was, elm);
      TakePlace(elm, was, c, Br(t.l, was, t.red, r'));
      q := Over(d, InR(t.l, elm, t.red, c));
      OverPlug(d, InR(t.l, elm, t.red, c), u);
      ZipDown(store, root, c, Br(t.l, elm, t.red, r'));
      AtPlug(store, root, InR(t.l, elm, t.red, c), r');
      AtPlug(store, root, q, u);
    }

    /** RB_REMOVE up to its label `color`: the node is unlinked, and one position may be a black node short. */
    method Unlink(elm: Node, ghost c: Path, ghost t: Tree)
      returns (parent: Node?, child: Node?, red: bool, ghost q: Path, ghost u: Tree)
      requires Shows(c, t) && t.Br? && t.n == elm && Coloured(Plug(c, t)) && !IsRed(Plug(c, t))
      modifies this`root, this`store, store.Keys`left, store.Keys`right, store.Keys`parent, store.Keys`red
      ensures Shows(q, u) && store.Keys == old(store.Keys) - {elm}
      ensures parent == ParentOf(q) && child == RootOf(u)
      ensures var k := |Before(c)| + |InOrder(t.l)|;
        k < |Whole(c, t)| && Whole(c, t)[k] == elm && Whole(q, u) == Without(Whole(c, t), k)
      ensures red ==> PathColoured(q, BlackHeight(u)) && Coloured(u) && !IsRed(u) && !q.Top?
      ensures !red ==> Short(q, u)
    {
      hide At, Whole, Coloured, PathColoured, Short, BlackHeight, Without, Before;
      LinkedAt(store, root, c, t);
      if elm.left != null && elm.right != null {
        parent, child, red, q, u := RemoveInner(elm, c, t);
      } else {
        child := if elm.left == null then elm.right else elm.left;
        parent := elm.parent;
        red := elm.red;
        q, u := c, if t.l.Leaf? then t.r else t.l;
        SpliceOrder(c, t, u);
        SpliceColours(c, t, u);
        Splice(elm, child, c, t, u);
      }
    }

    /** RB_REMOVE. */
    method Remove(elm: Node)
      requires Valid() && elm in store
      modifies this, store.Keys`left, store.Keys`right, store.Keys`parent, store.Keys`red
      ensures Valid() && store.Keys == old(store.Keys) - {elm}
      ensures exists k :: 0 <= k < |old(Elems())| && old(Elems())[k] == elm && Elems() == Without(old(Elems()), k)
    {
      hide At, Whole, Coloured, PathColoured, Short, BlackHeight, Without, Before, Sorted;
      ghost var c, t := Position(store, root, tree, elm);
      WholeTree(c, t);
      var parent, child, red;
      ghost var q, u;
      parent, child, red, q, u := Unlink(elm, c, t);
      SortedWithout(old(Elems()), |Before(c)| + |InOrder(t.l)|);
      if !red {
        tree := RemoveColor(parent, child, q, u);
      } else {
        tree := Plug(q, u);
        AtPlug(store, root, q, u);
        PlugColoured(q, u);
        WholeTree(q, u);
      }
    }

    // ----- RB_NEXT and RB_MINMAX -----

    /** The climb of RB_NEXT: up while the node is a right child, and once more. */
    method Climb(elm0: Node, ghost c0: Path, ghost t0: Tree) returns (elm: Node?)
      requires Shows(c0, t0) && t0.Br? && t0.n == elm0
      ensures elm == First(After(c0))
    {
      hide At;
      var cur := elm0;
      ghost var c, t := c0, t0;
      LinkedAt(store, root, c, t);
      while cur.parent != null && cur == cur.parent.right
        invariant Shows(c, t) && t.Br? && t.n == cur && After(c) == After(c0)
        invariant Linked(store, root, c, cur)
        decreases c
      {
        ZipUp(store, root, c, t);
        cur := cur.parent;
        c, t := c.up, Above(c, t);
        LinkedAt(store, root, c, t);
      }
      elm := cur.parent;
    }

    /** RB_NEXT: the next node in key order, null after the last. */
    method Next(elm0: Node) returns (elm: Node?)
      requires Valid() && elm0 in store
      ensures forall k :: 0 <= k < |Elems()| && Elems()[k] == elm0 ==> elm == First(Elems()[k + 1..])
    {
      hide At, Whole, Sorted, After, Before, First;
      ghost var c, t := Position(store, root, tree, elm0);
      LinkedAt(store, root, c, t);
      WholeTree(c, t);
      FollowingAt(c, t);
      if elm0.right != null {
        ghost var d, s;
        ZipDown(store, root, c, t);
        elm, d, s := Leftmost(elm0.right, InR(t.l, t.n, t.red, c), t.r);
        FirstOf(d, s);
      } else if elm0.parent != null && elm0 == elm0.parent.left {
        elm := elm0.parent;
        AfterLeft(c);
      } else {
        elm := Climb(elm0, c, t);
      }
    }

    /** RB_MINMAX: the first node for a negative argument, the last one otherwise. */
    method MinMax(val: int) returns (parent: Node?)
      requires Valid()
      ensures val < 0 ==> parent == First(Elems())
      ensures val >= 0 ==> parent == Last(Elems())
    {
      hide At, Whole, Sorted;
      ghost var c, t := Top, tree;
      var tmp := root;
      parent := null;
      RootAt(store, root, c, t);
      while tmp != null
        invariant Shows(c, t) && Plug(c, t) == tree && tmp == RootOf(t) && parent == ParentOf(c)
        invariant if val < 0 then Before(c) == [] else After(c) == []
        decreases t
      {
        parent := tmp;
        LinkedAt(store, root, c, t);
        ZipDown(store, root, c, t);
        if val < 0 {
          tmp := tmp.left;
          c, t := InL(c, t.n, t.red, t.r), t.l;
        } else {
          tmp := tmp.right;
          c, t := InR(t.l, t.n, t.red, c), t.r;
        }
      }
      WholeTree(c, t);
      EndOfSpine(c);
    }
  }
}
