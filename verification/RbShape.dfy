/** Red-black trees as values: the shape of a heap tree, the path to a position in it, and the colour laws. */
module RbShape {
  import opened Strings

  /** A tree node: the `RB_ENTRY` links, the key and the payload of its client. */
  class Node {
    var left: Node?
    var right: Node?
    var parent: Node?
    var red: bool
    const key: string
    var base: int

    constructor (k: string, b: int)
      ensures key == k && base == b
    {
      key, base := k, b;
    }
  }

  datatype Tree = Leaf | Br(l: Tree, n: Node, red: bool, r: Tree)

  /** The path from a position up to the root: the position is a left child (`InL`), a right child (`InR`)
      or the root (`Top`). */
  datatype Path = Top | InL(up: Path, n: Node, red: bool, r: Tree) | InR(l: Tree, n: Node, red: bool, up: Path)

  function Plug(c: Path, t: Tree): Tree {
    match c
    case Top => t
    case InL(up, n, red, r) => Plug(up, Br(t, n, red, r))
    case InR(l, n, red, up) => Plug(up, Br(l, n, red, t))
  }

  function Nodes(t: Tree): set<Node> {
    match t
    case Leaf => {}
    case Br(l, n, _, r) => Nodes(l) + {n} + Nodes(r)
  }

  function PathNodes(c: Path): set<Node> {
    match c
    case Top => {}
    case InL(up, n, _, r) => Nodes(r) + {n} + PathNodes(up)
    case InR(l, n, _, up) => Nodes(l) + {n} + PathNodes(up)
  }

  predicate Distinct(t: Tree) {
    match t
    case Leaf => true
    case Br(l, n, _, r) => Distinct(l) && Distinct(r) && n !in Nodes(l) && n !in Nodes(r) && Nodes(l) !! Nodes(r)
  }

  predicate PathDistinct(c: Path) {
    match c
    case Top => true
    case InL(up, n, _, r) =>
      PathDistinct(up) && Distinct(r) && n !in Nodes(r) && n !in PathNodes(up) && Nodes(r) !! PathNodes(up)
    case InR(l, n, _, up) =>
      PathDistinct(up) && Distinct(l) && n !in Nodes(l) && n !in PathNodes(up) && Nodes(l) !! PathNodes(up)
  }

  predicate Separate(c: Path, t: Tree) {
    PathDistinct(c) && Distinct(t) && PathNodes(c) !! Nodes(t)
  }

  lemma {:induction false} PlugNodes(c: Path, t: Tree)
    ensures Nodes(Plug(c, t)) == PathNodes(c) + Nodes(t)
    ensures Distinct(Plug(c, t)) <==> Separate(c, t)
  {
    match c
    case Top =>
    case InL(up, n, red, r) => PlugNodes(up, Br(t, n, red, r));
    case InR(l, n, red, up) => PlugNodes(up, Br(l, n, red, t));
  }

  // ----- order -----

  function InOrder(t: Tree): seq<Node> {
    match t
    case Leaf => []
    case Br(l, n, _, r) => InOrder(l) + [n] + InOrder(r)
  }

  /** What precedes and follows the position in order. */
  function Before(c: Path): seq<Node> {
    match c
    case Top => []
    case InL(up, _, _, _) => Before(up)
    case InR(l, n, _, up) => Before(up) + InOrder(l) + [n]
  }

  function After(c: Path): seq<Node> {
    match c
    case Top => []
    case InL(up, n, _, r) => [n] + InOrder(r) + After(up)
    case InR(_, _, _, up) => After(up)
  }

  lemma Regroup(a: seq<Node>, l: seq<Node>, n: Node, r: seq<Node>, z: seq<Node>)
    ensures a + (l + [n] + r) + z == a + l + ([n] + r + z)
    ensures a + (l + [n] + r) + z == (a + l + [n]) + r + z
    ensures a + (l + [n] + r) + z == (a + l) + [n] + (r + z)
  {
    assert l + [n] + r == l + ([n] + r);
  }

  lemma {:induction false} PlugInOrder(c: Path, t: Tree)
    ensures InOrder(Plug(c, t)) == Before(c) + InOrder(t) + After(c)
  {
    match c
    case Top =>
    case InL(up, n, red, r) =>
      PlugInOrder(up, Br(t, n, red, r));
      Regroup(Before(up), InOrder(t), n, InOrder(r), After(up));
    case InR(l, n, red, up) =>
      PlugInOrder(up, Br(l, n, red, t));
      Regroup(Before(up), InOrder(l), n, InOrder(t), After(up));
  }

  lemma {:induction false} InOrderNodes(t: Tree)
    ensures forall n :: n in InOrder(t) <==> n in Nodes(t)
  {
    match t
    case Leaf =>
    case Br(l, n, _, r) =>
      InOrderNodes(l);
      InOrderNodes(r);
  }

  ghost predicate Sorted(s: seq<Node>) {
    forall i, j :: 0 <= i < j < |s| ==> StrCmp(s[i].key, s[j].key) < 0
  }

  // ----- colours -----

  predicate IsRed(t: Tree) { t.Br? && t.red }

  function Weight(red: bool): nat { if red then 0 else 1 }

  /** Black nodes on the leftmost path; on balanced trees, on every path. */
  function BlackHeight(t: Tree): nat {
    match t
    case Leaf => 0
    case Br(l, _, red, _) => BlackHeight(l) + Weight(red)
  }

  /** Equal black counts everywhere and no red node with a red child. */
  predicate Coloured(t: Tree) {
    match t
    case Leaf => true
    case Br(l, _, red, r) =>
      Coloured(l) && Coloured(r) && BlackHeight(l) == BlackHeight(r) && (red ==> !IsRed(l) && !IsRed(r))
  }

  /** As `Coloured`, except that a red root may have red children. */
  predicate ColouredBelow(t: Tree) {
    t.Br? ==> Coloured(t.l) && Coloured(t.r) && BlackHeight(t.l) == BlackHeight(t.r) && (!t.red ==> Coloured(t))
  }

  predicate RedAbove(c: Path) { !c.Top? && c.red }

  /** The path obeys the colour laws and expects a subtree of black height `h`; its root is black. */
  predicate PathColoured(c: Path, h: nat) {
    match c
    case Top => true
    case InL(up, _, red, r) =>
      Coloured(r) && BlackHeight(r) == h && PathColoured(up, h + Weight(red))
      && (red ==> !IsRed(r) && !RedAbove(up) && !up.Top?)
    case InR(l, _, red, up) =>
      Coloured(l) && BlackHeight(l) == h && PathColoured(up, h + Weight(red))
      && (red ==> !IsRed(l) && !RedAbove(up) && !up.Top?)
  }

  lemma {:induction false} PlugColoured(c: Path, t: Tree)
    requires Coloured(t) && PathColoured(c, BlackHeight(t)) && (RedAbove(c) ==> !IsRed(t))
    ensures Coloured(Plug(c, t)) && (!c.Top? ==> !IsRed(Plug(c, t)))
  {
    match c
    case Top =>
    case InL(up, n, red, r) => PlugColoured(up, Br(t, n, red, r));
    case InR(l, n, red, up) => PlugColoured(up, Br(l, n, red, t));
  }

  lemma {:induction false} UnplugColoured(c: Path, t: Tree)
    requires Coloured(Plug(c, t)) && !IsRed(Plug(c, t))
    ensures Coloured(t) && PathColoured(c, BlackHeight(t)) && (RedAbove(c) || c.Top? ==> !IsRed(t))
  {
    match c
    case Top =>
    case InL(up, n, red, r) => UnplugColoured(up, Br(t, n, red, r));
    case InR(l, n, red, up) => UnplugColoured(up, Br(l, n, red, t));
  }

  function Height(t: Tree): nat {
    match t
    case Leaf => 0
    case Br(l, _, _, r) => 1 + if Height(l) > Height(r) then Height(l) else Height(r)
  }

  function Pow2(k: nat): (p: nat)
    ensures p > 0
  {
    if k == 0 then 1 else 2 * Pow2(k - 1)
  }

  /** A coloured tree of black height `h` has at least 2^h - 1 nodes and height at most 2h, one more if red. */
  lemma {:induction false} ColouredHeight(t: Tree)
    requires Coloured(t)
    ensures |InOrder(t)| + 1 >= Pow2(BlackHeight(t))
    ensures Height(t) <= 2 * BlackHeight(t) + (if IsRed(t) then 1 else 0)
  {
    match t
    case Leaf =>
    case Br(l, _, red, r) =>
      ColouredHeight(l);
      ColouredHeight(r);
  }

  lemma {:induction false} Pow2Double(h: nat)
    ensures Pow2(2 * h) == Pow2(h) * Pow2(h)
  {
    if h != 0 {
      Pow2Double(h - 1);
      assert Pow2(2 * h) == 4 * Pow2(2 * (h - 1));
    }
  }

  lemma {:induction false} Pow2Monotone(a: nat, b: nat)
    requires a <= b
    ensures Pow2(a) <= Pow2(b)
  {
    if a < b { Pow2Monotone(a, b - 1); }
  }

  /** The height of a red-black tree with n nodes is at most 2 lg (n + 1). */
  lemma HeightBound(t: Tree)
    requires Coloured(t) && !IsRed(t)
    ensures Pow2(Height(t)) <= (|InOrder(t)| + 1) * (|InOrder(t)| + 1)
  {
    var h, n := BlackHeight(t), |InOrder(t)| + 1;
    ColouredHeight(t);
    Pow2Monotone(Height(t), 2 * h);
    Pow2Double(h);
    Squares(Pow2(h), n);
  }

  lemma Squares(a: nat, b: nat)
    requires a <= b
    ensures a * a <= b * b
  {
    assert a * a <= a * b <= b * b;
  }

  /** All nodes in order, seen from a position. */
  function Whole(c: Path, t: Tree): seq<Node> { Before(c) + InOrder(t) + After(c) }

  lemma WholeUp(up: Path, l: Tree, n: Node, red: bool, r: Tree)
    ensures Whole(InL(up, n, red, r), l) == Whole(up, Br(l, n, red, r)) == Whole(InR(l, n, red, up), r)
  {
  }

  lemma WholeSame(c: Path, t: Tree, t': Tree)
    requires InOrder(t) == InOrder(t')
    ensures Whole(c, t) == Whole(c, t')
  {
  }

  function Depth(c: Path): nat { if c.Top? then 0 else 1 + Depth(c.up) }

  function RotL(t: Tree): (t': Tree)
    requires t.Br? && t.r.Br?
    ensures InOrder(t') == InOrder(t)
  {
    assert InOrder(Br(t.l, t.n, t.red, t.r.l)) + [t.r.n] + InOrder(t.r.r) == InOrder(t.l) + [t.n] + InOrder(t.r);
    Br(Br(t.l, t.n, t.red, t.r.l), t.r.n, t.r.red, t.r.r)
  }

  function RotR(t: Tree): (t': Tree)
    requires t.Br? && t.l.Br?
    ensures InOrder(t') == InOrder(t)
  {
    assert InOrder(t.l.l) + [t.l.n] + InOrder(Br(t.l.r, t.n, t.red, t.r)) == InOrder(t.l) + [t.n] + InOrder(t.r);
    Br(t.l.l, t.l.n, t.l.red, Br(t.l.r, t.n, t.red, t.r))
  }

  /** The subtree one level up. */
  function Above(c: Path, t: Tree): Tree
    requires !c.Top?
  {
    if c.InL? then Br(t, c.n, c.red, c.r) else Br(c.l, c.n, c.red, t)
  }

  lemma AbovePlug(c: Path, t: Tree)
    requires !c.Top?
    ensures Plug(c.up, Above(c, t)) == Plug(c, t) && Whole(c.up, Above(c, t)) == Whole(c, t)
  {
    if c.InL? { WholeUp(c.up, t, c.n, c.red, c.r); } else { WholeUp(c.up, c.l, c.n, c.red, t); }
  }

  // ----- insertion: a red node may hang below a red parent -----

  /** The fix-up loop's state: everything is in order except that `t`, which is red, may have a red parent. */
  predicate RedFocus(c: Path, t: Tree) {
    t.Br? && t.red && Coloured(t) && PathColoured(c, BlackHeight(t))
  }

  /** Red uncle: both reds move up to the grandparent. */
  lemma UncleRecolours(c: Path, t: Tree)
    requires RedFocus(c, t) && RedAbove(c)
    ensures !c.up.Top? && !c.up.red
    ensures c.up.InL? && IsRed(c.up.r) ==>
      RedFocus(c.up.up, Br(Recoloured(Above(c, t), false), c.up.n, true, Recoloured(c.up.r, false)))
    ensures c.up.InR? && IsRed(c.up.l) ==>
      RedFocus(c.up.up, Br(Recoloured(c.up.l, false), c.up.n, true, Recoloured(Above(c, t), false)))
  {
    var P := Recoloured(Above(c, t), false);
    assert PathColoured(c.up, BlackHeight(t)) && !c.up.Top? && !c.up.red;
    assert PathColoured(c.up.up, BlackHeight(t) + 1);
    assert Coloured(P) && BlackHeight(P) == BlackHeight(t) + 1;
    var u := if c.up.InL? then c.up.r else c.up.l;
    if IsRed(u) {
      var u' := Recoloured(u, false);
      assert Coloured(u.l) && Coloured(u.r) && Coloured(u') && BlackHeight(u') == BlackHeight(t) + 1;
      var G := if c.up.InL? then Br(P, c.up.n, true, u') else Br(u', c.up.n, true, P);
      assert Coloured(G) && BlackHeight(G) == BlackHeight(t) + 1;
    }
  }

  /** Black uncle and `t` on the outer side: one rotation at the grandparent ends the loop. */
  lemma OuterRotation(c: Path, t: Tree)
    requires RedFocus(c, t) && RedAbove(c)
    ensures !c.up.Top?
    ensures c.InL? && c.up.InL? && !IsRed(c.up.r) ==>
      RedFocus(InL(c.up.up, c.n, false, Br(c.r, c.up.n, true, c.up.r)), t)
    ensures c.InR? && c.up.InR? && !IsRed(c.up.l) ==>
      RedFocus(InR(Br(c.up.l, c.up.n, true, c.l), c.n, false, c.up.up), t)
  {
    assert PathColoured(c.up, BlackHeight(t)) && !c.up.Top? && !c.up.red;
    assert PathColoured(c.up.up, BlackHeight(t) + 1);
  }

  /** `t` on the inner side: a rotation at the parent makes the parent the outer red node. */
  lemma InnerRotation(c: Path, t: Tree)
    requires RedFocus(c, t) && RedAbove(c)
    ensures c.InR? ==> RedFocus(InL(c.up, t.n, true, t.r), Br(c.l, c.n, true, t.l))
    ensures c.InL? ==> RedFocus(InR(t.l, t.n, true, c.up), Br(t.r, c.n, true, c.r))
  {
    assert PathColoured(c.up, BlackHeight(t)) && !c.up.Top? && !c.up.red;
    assert Coloured(t.l) && Coloured(t.r) && BlackHeight(t.l) == BlackHeight(t.r) == BlackHeight(t);
    assert c.InR? ==> Coloured(Br(c.l, c.n, true, t.l));
    assert c.InL? ==> Coloured(Br(t.r, c.n, true, c.r));
  }

  function Recoloured(t: Tree, red: bool): (t': Tree)
    requires t.Br?
    ensures t'.Br? && InOrder(t') == InOrder(t) && t'.n == t.n && t'.l == t.l && t'.r == t.r && t'.red == red
  {
    t.(red := red)
  }

  /** The two levels above a position, with any shapes of the same order in place of parent and uncle. */
  lemma WholeTwoUp(c: Path, t: Tree, G: Tree)
    requires !c.Top? && !c.up.Top? && InOrder(G) == InOrder(Above(c.up, Above(c, t)))
    ensures Whole(c.up.up, G) == Whole(c, t)
  {
    AbovePlug(c, t);
    AbovePlug(c.up, Above(c, t));
    WholeSame(c.up.up, G, Above(c.up, Above(c, t)));
  }

  /** Colours do not matter for the order. */
  lemma ColourlessOrder(a: Tree, x: Node, p: bool, b: Tree, y: Node, q: bool, d: Tree, p': bool, q': bool)
    ensures InOrder(Br(a, x, p, Br(b, y, q, d))) == InOrder(Br(a, x, p', Br(b, y, q', d)))
    ensures InOrder(Br(Br(a, x, p, b), y, q, d)) == InOrder(Br(Br(a, x, p', b), y, q', d))
  {
    assert InOrder(Br(b, y, q, d)) == InOrder(Br(b, y, q', d));
    assert InOrder(Br(a, x, p, b)) == InOrder(Br(a, x, p', b));
  }

  // ----- searching by key -----

  ghost predicate AllLess(s: seq<Node>, k: string) { forall i :: 0 <= i < |s| ==> StrCmp(s[i].key, k) < 0 }

  ghost predicate AllGreater(s: seq<Node>, k: string) { forall i :: 0 <= i < |s| ==> StrCmp(k, s[i].key) < 0 }

  /** `k` belongs at the end of path `c`. */
  ghost predicate Between(c: Path, k: string) { AllLess(Before(c), k) && AllGreater(After(c), k) }

  lemma SortedMiddle(p: seq<Node>, n: Node, q: seq<Node>)
    requires Sorted(p + [n] + q)
    ensures AllLess(p, n.key) && AllGreater(q, n.key)
  {
    var s, k := p + [n] + q, |p|;
    assert s[k] == n;
    forall i | 0 <= i < |p|
      ensures StrCmp(p[i].key, n.key) < 0
    {
      assert s[i] == p[i];
    }
    forall i | 0 <= i < |q|
      ensures StrCmp(n.key, q[i].key) < 0
    {
      var j := k + 1 + i;
      assert s[j] == q[i];
    }
  }

  lemma LessThan(s: seq<Node>, n: string, k: string)
    requires StrCmp(n, k) < 0
    ensures AllLess(s, n) ==> AllLess(s, k)
    ensures AllGreater(s, k) ==> AllGreater(s, n)
  {
    forall i | 0 <= i < |s|
      ensures StrCmp(s[i].key, n) < 0 ==> StrCmp(s[i].key, k) < 0
      ensures StrCmp(k, s[i].key) < 0 ==> StrCmp(n, s[i].key) < 0
    {
      if StrCmp(s[i].key, n) < 0 { StrCmpTransitive(s[i].key, n, k); }
      if StrCmp(k, s[i].key) < 0 { StrCmpTransitive(n, k, s[i].key); }
    }
  }

  /** One step of a search keeps the bounds. */
  lemma SearchStep(c: Path, l: Tree, n: Node, red: bool, r: Tree, k: string)
    requires Sorted(Whole(c, Br(l, n, red, r))) && Between(c, k)
    ensures StrCmp(k, n.key) < 0 ==> Between(InL(c, n, red, r), k)
    ensures StrCmp(k, n.key) > 0 ==> Between(InR(l, n, red, c), k)
  {
    var p, q := Before(c) + InOrder(l), InOrder(r) + After(c);
    WholeAt(c, Br(l, n, red, r));
    hide Sorted, StrCmp;
    SortedMiddle(p, n, q);
    StrCmpFlip(k, n.key);
    if StrCmp(k, n.key) < 0 {
      LessThan(q, k, n.key);
      assert [n] + InOrder(r) + After(c) == [n] + q;
      GreaterCons(n, q, k);
    }
    if StrCmp(k, n.key) > 0 {
      LessThan(p, n.key, k);
      LessSnoc(p, n, k);
    }
  }

  lemma GreaterCons(n: Node, q: seq<Node>, k: string)
    requires StrCmp(k, n.key) < 0 && AllGreater(q, k)
    ensures AllGreater([n] + q, k)
  {
  }

  lemma LessSnoc(p: seq<Node>, n: Node, k: string)
    requires StrCmp(n.key, k) < 0 && AllLess(p, k)
    ensures AllLess(p + [n], k)
  {
  }

  ghost predicate HasKey(s: seq<Node>, k: string) { exists i :: 0 <= i < |s| && s[i].key == k }

  lemma NoKeyBetween(c: Path, k: string)
    requires Between(c, k)
    ensures !HasKey(Whole(c, Leaf), k)
  {
    StrCmpZero(k, k);
    var s := Whole(c, Leaf);
    forall i | 0 <= i < |s|
      ensures s[i].key != k
    {
      if i < |Before(c)| { assert s[i] == Before(c)[i]; } else { assert s[i] == After(c)[i - |Before(c)|]; }
    }
  }

  /** Adding the key where the search ended keeps the order strict. */
  lemma SortedInsert(c: Path, e: Node)
    requires Sorted(Whole(c, Leaf)) && Between(c, e.key)
    ensures Sorted(Whole(c, Br(Leaf, e, true, Leaf)))
    ensures Whole(c, Leaf) == Before(c) + After(c) && Whole(c, Br(Leaf, e, true, Leaf)) == Before(c) + [e] + After(c)
  {
    var L, R := Before(c), After(c);
    var s, s' := Whole(c, Leaf), Whole(c, Br(Leaf, e, true, Leaf));
    assert s == L + R && s' == L + [e] + R;
    forall i, j | 0 <= i < j < |s'|
      ensures StrCmp(s'[i].key, s'[j].key) < 0
    {
      var i', j' := if i > |L| then i - 1 else i, if j > |L| then j - 1 else j;
      if i != |L| && j != |L| {
        assert s'[i] == s[i'] && s'[j] == s[j'];
      } else if j == |L| {
        assert s'[i] == L[i];
      } else {
        assert s'[j] == R[j - |L| - 1];
      }
    }
  }

  // ----- removal: a subtree may be one black node short -----

  /** The fix-up loop's state: `t` has one black node too few on every path. */
  predicate Short(c: Path, t: Tree) {
    ColouredBelow(t) && PathColoured(c, BlackHeight(t) + 1)
  }

  function Sibling(c: Path): Tree
    requires !c.Top?
  {
    if c.InL? then c.r else c.l
  }

  /** The child of the sibling far from, and near to, the short position. */
  function Far(c: Path): Tree
    requires !c.Top? && Sibling(c).Br?
  {
    if c.InL? then c.r.r else c.l.l
  }

  function Near(c: Path): Tree
    requires !c.Top? && Sibling(c).Br?
  {
    if c.InL? then c.r.l else c.l.r
  }

  /** The path `c` with another sibling. */
  function WithSibling(c: Path, s: Tree): Path
    requires !c.Top?
  {
    if c.InL? then InL(c.up, c.n, c.red, s) else InR(s, c.n, c.red, c.up)
  }

  lemma ShortSibling(c: Path, t: Tree)
    requires Short(c, t) && !c.Top?
    ensures Sibling(c).Br? && Coloured(Sibling(c)) && BlackHeight(Sibling(c)) == BlackHeight(t) + 1
    ensures PathColoured(c.up, BlackHeight(t) + 1 + Weight(c.red))
    ensures c.red ==> !IsRed(Sibling(c)) && !RedAbove(c.up)
  {
  }

  /** The path after a red sibling was rotated up: the parent is red and the sibling black. */
  function AfterRedSibling(c: Path): Path
    requires !c.Top? && Sibling(c).Br?
  {
    if c.InL? then InL(InL(c.up, c.r.n, false, c.r.r), c.n, true, c.r.l)
    else InR(c.l.r, c.n, true, InR(c.l.l, c.l.n, false, c.up))
  }

  lemma ShortRedSibling(c: Path, t: Tree)
    requires Short(c, t) && !c.Top? && IsRed(Sibling(c))
    ensures !c.red && Short(AfterRedSibling(c), t) && !IsRed(Sibling(AfterRedSibling(c)))
  {
    ShortSibling(c, t);
  }

  /** Black sibling with black children: it becomes red and the parent is short. */
  lemma ShortBlackNephews(c: Path, t: Tree)
    requires Short(c, t) && !IsRed(t) && !c.Top? && Sibling(c).Br? && !Sibling(c).red && !IsRed(Near(c))
      && !IsRed(Far(c))
    ensures Short(c.up, Above(WithSibling(c, Recoloured(Sibling(c), true)), t))
  {
    ShortSibling(c, t);
    var s := Recoloured(Sibling(c), true);
    assert Coloured(s) && BlackHeight(s) == BlackHeight(t);
    assert t.Br? ==> Coloured(t);
  }

  /** Only the near nephew red: a rotation at the sibling makes the far one red. */
  function NearRotated(c: Path): Tree
    requires !c.Top? && Sibling(c).Br? && Near(c).Br?
  {
    var s, x := Sibling(c), Near(c);
    if c.InL? then Br(x.l, x.n, false, Br(x.r, s.n, true, s.r)) else Br(Br(s.l, s.n, true, x.l), x.n, false, x.r)
  }

  lemma ShortNearNephew(c: Path, t: Tree)
    requires Short(c, t) && !c.Top? && Sibling(c).Br? && !Sibling(c).red && IsRed(Near(c)) && !IsRed(Far(c))
    ensures var c' := WithSibling(c, NearRotated(c)); Short(c', t) && !Sibling(c').red && IsRed(Far(c'))
  {
    ShortSibling(c, t);
    var s, x := Sibling(c), Near(c);
    var y := if c.InL? then Br(x.r, s.n, true, s.r) else Br(s.l, s.n, true, x.l);
    assert Coloured(x) && Coloured(y) && BlackHeight(y) == BlackHeight(x.l);
  }

  /** Far nephew red: a rotation at the parent ends the loop. */
  function FarRotated(c: Path, t: Tree): Tree
    requires !c.Top? && Sibling(c).Br? && Far(c).Br?
  {
    var s, f := Sibling(c), Recoloured(Far(c), false);
    if c.InL? then Br(Br(t, c.n, false, s.l), s.n, c.red, f) else Br(f, s.n, c.red, Br(s.r, c.n, false, t))
  }

  lemma ShortFarNephew(c: Path, t: Tree)
    requires Short(c, t) && !IsRed(t) && !c.Top? && Sibling(c).Br? && !Sibling(c).red && IsRed(Far(c))
    ensures var R := FarRotated(c, t);
            Coloured(R) && PathColoured(c.up, BlackHeight(R)) && (RedAbove(c.up) ==> !IsRed(R))
                && (c.up.Top? ==> !IsRed(R))
  {
    ShortSibling(c, t);
    var f := Recoloured(Far(c), false);
    assert t.Br? ==> Coloured(t);
    assert Coloured(f) && BlackHeight(f) == BlackHeight(t) + 1;
    var g := if c.InL? then Br(t, c.n, false, c.r.l) else Br(c.l.r, c.n, false, t);
    assert Coloured(g) && BlackHeight(g) == BlackHeight(t) + 1;
  }

  /** Blackening a short red subtree, or the root, restores the colour laws. */
  lemma ShortEnds(c: Path, t: Tree)
    requires Short(c, t) && t.Br? && (IsRed(t) || c.Top?)
    ensures var T := Plug(c, Recoloured(t, false)); Coloured(T) && !IsRed(T)
  {
    var t' := Recoloured(t, false);
    assert Coloured(t');
    if t.red {
      assert BlackHeight(t') == BlackHeight(t) + 1;
      PlugColoured(c, t');
    }
  }

  // None of the removal steps changes the order.

  lemma WithSiblingOrder(c: Path, t: Tree, s: Tree)
    requires !c.Top? && InOrder(s) == InOrder(Sibling(c))
    ensures Whole(WithSibling(c, s), t) == Whole(c, t)
  {
  }

  lemma AfterRedSiblingOrder(c: Path, t: Tree)
    requires !c.Top? && Sibling(c).Br?
    ensures Whole(AfterRedSibling(c), t) == Whole(c, t)
  {
    var c' := AfterRedSibling(c);
    AbovePlug(c, t);
    AbovePlug(c', t);
    AbovePlug(c'.up, Above(c', t));
    var P, G := Above(c, t), Above(c'.up, Above(c', t));
    assert InOrder(G) == InOrder(P) by {
      if c.InL? {
        ColourlessOrder(t, c.n, c.red, c.r.l, c.r.n, c.r.red, c.r.r, true, false);
        var Q := Br(t, c.n, c.red, c.r);
        assert Q == Br(t, c.n, c.red, Br(c.r.l, c.r.n, c.r.red, c.r.r));
        assert InOrder(RotL(Q)) == InOrder(Q);
      } else {
        ColourlessOrder(c.l.l, c.l.n, c.l.red, c.l.r, c.n, c.red, t, false, true);
        var Q := Br(c.l, c.n, c.red, t);
        assert Q == Br(Br(c.l.l, c.l.n, c.l.red, c.l.r), c.n, c.red, t);
        assert InOrder(RotR(Q)) == InOrder(Q);
      }
    }
    WholeSame(c.up, G, P);
  }

  lemma NearRotatedOrder(c: Path)
    requires !c.Top? && Sibling(c).Br? && Near(c).Br?
    ensures InOrder(NearRotated(c)) == InOrder(Sibling(c))
  {
    var s, x := Sibling(c), Near(c);
    if c.InL? {
      assert s == Br(Br(x.l, x.n, x.red, x.r), s.n, s.red, s.r);
      ColourlessOrder(x.l, x.n, x.red, x.r, s.n, s.red, s.r, false, true);
      assert InOrder(RotR(s)) == InOrder(s);
      ColourlessOrder(x.l, x.n, x.red, x.r, s.n, s.red, s.r, false, true);
    } else {
      assert s == Br(s.l, s.n, s.red, Br(x.l, x.n, x.red, x.r));
      assert InOrder(RotL(s)) == InOrder(s);
      ColourlessOrder(s.l, s.n, s.red, x.l, x.n, x.red, x.r, true, false);
    }
  }

  lemma FarRotatedOrder(c: Path, t: Tree)
    requires !c.Top? && Sibling(c).Br? && Far(c).Br?
    ensures InOrder(FarRotated(c, t)) == InOrder(Above(c, t))
  {
    var s, f := Sibling(c), Recoloured(Far(c), false);
    if c.InL? {
      var Q := Br(t, c.n, c.red, s);
      assert InOrder(RotL(Q)) == InOrder(Q);
      assert InOrder(Br(t, c.n, false, s.l)) == InOrder(Br(t, c.n, c.red, s.l));
    } else {
      var Q := Br(s, c.n, c.red, t);
      assert InOrder(RotR(Q)) == InOrder(Q);
      assert InOrder(Br(s.r, c.n, false, t)) == InOrder(Br(s.r, c.n, c.red, t));
    }
  }

  // ----- paths inside a subtree -----

  /** The path `d` inside a subtree, continued by the path `b` of that subtree. */
  function Over(d: Path, b: Path): Path {
    match d
    case Top => b
    case InL(up, n, red, r) => InL(Over(up, b), n, red, r)
    case InR(l, n, red, up) => InR(l, n, red, Over(up, b))
  }

  lemma {:induction false} OverPlug(d: Path, b: Path, t: Tree)
    ensures Plug(Over(d, b), t) == Plug(b, Plug(d, t))
  {
    match d
    case Top =>
    case InL(up, n, red, r) => OverPlug(up, b, Br(t, n, red, r));
    case InR(l, n, red, up) => OverPlug(up, b, Br(l, n, red, t));
  }

  /** Another node above the subtree leaves the colours of the path as they are. */
  lemma {:induction false} OverColoured(d: Path, l: Tree, n: Node, m: Node, red: bool, c: Path, h: nat)
    requires PathColoured(Over(d, InR(l, n, red, c)), h)
    ensures PathColoured(Over(d, InR(l, m, red, c)), h)
    ensures RedAbove(Over(d, InR(l, m, red, c))) <==> RedAbove(Over(d, InR(l, n, red, c)))
  {
    if !d.Top? { OverColoured(d.up, l, n, m, red, c, h + Weight(d.red)); }
  }

  lemma {:induction false} OverOrder(d: Path, b: Path)
    requires Before(d) == []
    ensures Before(Over(d, b)) == Before(b) && After(Over(d, b)) == After(d) + After(b)
  {
    if !d.Top? { OverOrder(d.up, b); }
  }

  /** Every node of a tree has a position. */
  lemma {:induction false} Locate(c: Path, t: Tree, n: Node) returns (c': Path, t': Tree)
    requires n in Nodes(t)
    ensures t'.Br? && t'.n == n && Plug(c', t') == Plug(c, t)
    decreases t
  {
    if n == t.n {
      c', t' := c, t;
    } else if n in Nodes(t.l) {
      c', t' := Locate(InL(c, t.n, t.red, t.r), t.l, n);
    } else {
      c', t' := Locate(InR(t.l, t.n, t.red, c), t.r, n);
    }
  }

  function Without(s: seq<Node>, k: nat): seq<Node>
    requires k < |s|
  {
    s[..k] + s[k + 1..]
  }

  lemma SortedWithout(s: seq<Node>, k: nat)
    requires k < |s| && Sorted(s)
    ensures Sorted(Without(s, k))
  {
    var w := Without(s, k);
    forall i, j | 0 <= i < j < |w|
      ensures StrCmp(w[i].key, w[j].key) < 0
    {
      var i', j' := if i < k then i else i + 1, if j < k then j else j + 1;
      assert w[i] == s[i'] && w[j] == s[j'];
    }
  }

  lemma SortedUnique(s: seq<Node>, i: nat, j: nat)
    requires Sorted(s) && i < |s| && j < |s| && s[i] == s[j]
    ensures i == j
  {
    StrCmpZero(s[i].key, s[i].key);
  }

  /** `u` is all that remains of `t` without its root. */
  predicate OnlyChild(t: Tree, u: Tree) {
    t.Br? && ((t.l.Leaf? && u == t.r) || (t.r.Leaf? && u == t.l))
  }

  lemma DropAt(a: seq<Node>, x: Node, b: seq<Node>)
    ensures (a + [x] + b)[|a|] == x && Without(a + [x] + b, |a|) == a + b
  {
  }

  lemma WholeAt(c: Path, t: Tree)
    requires t.Br?
    ensures Whole(c, t) == (Before(c) + InOrder(t.l)) + [t.n] + (InOrder(t.r) + After(c))
  {
    Regroup(Before(c), InOrder(t.l), t.n, InOrder(t.r), After(c));
  }

  /** Unlinking a node with one child removes it from the order. */
  lemma SpliceOrder(c: Path, t: Tree, u: Tree)
    requires OnlyChild(t, u)
    ensures var k := |Before(c)| + |InOrder(t.l)|;
      k < |Whole(c, t)| && Whole(c, t)[k] == t.n && Whole(c, u) == Without(Whole(c, t), k)
  {
    hide Without;
    WholeAt(c, t);
    DropAt(Before(c) + InOrder(t.l), t.n, InOrder(t.r) + After(c));
    SpliceSides(Before(c), InOrder(t.l), InOrder(t.r), After(c));
  }

  lemma SpliceSides(a: seq<Node>, l: seq<Node>, r: seq<Node>, z: seq<Node>)
    ensures l == [] ==> (a + l) + (r + z) == a + r + z
    ensures r == [] ==> (a + l) + (r + z) == a + l + z
  {
  }

  /** Unlinking a red node with one child keeps the colour laws; a black one leaves its child short. */
  lemma SpliceColours(c: Path, t: Tree, u: Tree)
    requires OnlyChild(t, u) && Coloured(Plug(c, t)) && !IsRed(Plug(c, t))
    ensures t.red ==> PathColoured(c, BlackHeight(u)) && Coloured(u) && !IsRed(u) && !c.Top?
    ensures !t.red ==> Short(c, u)
  {
    UnplugColoured(c, t);
  }

  lemma SuccessorSides(l: Tree, n: Node, red: bool, c: Path, d: Path, s: Tree)
    requires s.Br? && s.l.Leaf? && Before(d) == []
    ensures InOrder(Plug(d, s)) == [s.n] + InOrder(s.r) + After(d)
    ensures var q := Over(d, InR(l, n, red, c));
      Before(q) == Before(c) + InOrder(l) + [n] && After(q) == After(d) + After(c)
  {
    PlugInOrder(d, s);
    assert InOrder(s) == [s.n] + InOrder(s.r);
    OverOrder(d, InR(l, n, red, c));
  }

  /** The order after a node with two children gave its place to its successor `s.n`. */
  lemma SuccessorOrder(c: Path, t: Tree, d: Path, s: Tree)
    requires t.Br? && s.Br? && s.l.Leaf? && Plug(d, s) == t.r && Before(d) == []
    ensures var k := |Before(c)| + |InOrder(t.l)|;
      && k < |Whole(c, t)| && Whole(c, t)[k] == t.n
      && Whole(Over(d, InR(t.l, s.n, t.red, c)), s.r) == Without(Whole(c, t), k)
  {
    hide Without, Plug;
    var q := Over(d, InR(t.l, s.n, t.red, c));
    SuccessorSides(t.l, s.n, t.red, c, d, s);
    WholeAt(c, t);
    var a, b := Before(c) + InOrder(t.l), InOrder(t.r) + After(c);
    DropAt(a, t.n, b);
    Regrouped(a, s.n, InOrder(s.r), After(d), After(c));
  }

  lemma Regrouped(a: seq<Node>, x: Node, u: seq<Node>, v: seq<Node>, w: seq<Node>)
    ensures (a + [x]) + u + (v + w) == a + (([x] + u + v) + w)
  {
  }

  /** Its colours: the successor took over the colour, and its own place was spliced. */
  lemma SuccessorColours(c: Path, t: Tree, d: Path, s: Tree)
    requires t.Br? && s.Br? && s.l.Leaf? && Plug(d, s) == t.r && Coloured(Plug(c, t)) && !IsRed(Plug(c, t))
    ensures var q := Over(d, InR(t.l, s.n, t.red, c));
      && !q.Top? && (s.red ==> PathColoured(q, BlackHeight(s.r)) && Coloured(s.r) && !IsRed(s.r))
      && (!s.red ==> Short(q, s.r))
  {
    var b := InR(t.l, t.n, t.red, c);
    OverPlug(d, b, s);
    SpliceColours(Over(d, b), s, s.r);
    OverColoured(d, t.l, t.n, s.n, t.red, c, BlackHeight(s.r) + Weight(s.red));
  }
}
