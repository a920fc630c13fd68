/**
 The intrusive red-black tree behind the run queues and the timers.  A node is a
 record in memory with parent, left and right pointers and a colour, all
 rewritten in place; the ghost datatype Tree is the shape that the pointers are
 proved to draw.
 */
module RbShape {
  import opened Numbers

  /** The address of a node record; 0 is the null pointer. */
  type Ptr = nat
  const NULL: Ptr := 0

  /** The parent-and-colour word, taken apart, and the child pointers. */
  datatype Cell = Cell(parent: Ptr, black: bool, left: Ptr, right: Ptr)

  type Memory = map<Ptr, Cell>

  // ----- shapes -----

  datatype Tree = Leaf | Branch(l: Tree, n: Ptr, black: bool, r: Tree)

  /** A tree with a hole: the path from the hole up to the root. */
  datatype Path =
    | Top
    | LeftOf(n: Ptr, black: bool, sib: Tree, up: Path)   // the hole is the left child of n
    | RightOf(n: Ptr, black: bool, sib: Tree, up: Path)  // the hole is the right child of n

  ghost function Root(t: Tree): Ptr {
    if t.Leaf? then NULL else t.n
  }

  ghost function Owner(c: Path): Ptr {
    if c.Top? then NULL else c.n
  }

  /** The root of t, and the owner of the hole of c, as sets that leave null out. */
  ghost function Head(t: Tree): set<Ptr> {
    if t.Leaf? then {} else {t.n}
  }

  ghost function Foot(c: Path): set<Ptr> {
    if c.Top? then {} else {c.n}
  }

  ghost function Nodes(t: Tree): set<Ptr> {
    if t.Leaf? then {} else Nodes(t.l) + {t.n} + Nodes(t.r)
  }

  ghost function PathNodes(c: Path): set<Ptr> {
    if c.Top? then {} else Nodes(c.sib) + {c.n} + PathNodes(c.up)
  }

  ghost predicate Uniq(t: Tree) {
    t.Branch? ==> Uniq(t.l) && Uniq(t.r) && Nodes(t.l) !! {t.n} !! Nodes(t.r)
  }

  ghost predicate UniqPath(c: Path) {
    !c.Top? ==> Uniq(c.sib) && UniqPath(c.up) && Nodes(c.sib) !! {c.n} !! PathNodes(c.up)
  }

  ghost function Plug(c: Path, t: Tree): Tree {
    match c
    case Top => t
    case LeftOf(n, b, s, up) => Plug(up, Branch(t, n, b, s))
    case RightOf(n, b, s, up) => Plug(up, Branch(s, n, b, t))
  }

  ghost function InOrder(t: Tree): seq<Ptr> {
    if t.Leaf? then [] else InOrder(t.l) + [t.n] + InOrder(t.r)
  }

  /** The nodes before and after the hole in order. */
  ghost function Before(c: Path): seq<Ptr> {
    match c
    case Top => []
    case LeftOf(_, _, _, up) => Before(up)
    case RightOf(n, _, s, up) => Before(up) + InOrder(s) + [n]
  }

  ghost function After(c: Path): seq<Ptr> {
    match c
    case Top => []
    case LeftOf(n, _, s, up) => [n] + InOrder(s) + After(up)
    case RightOf(_, _, _, up) => After(up)
  }

  // ----- colours and heights -----

  ghost predicate IsBlack(t: Tree) {
    t.Leaf? || t.black
  }

  ghost function BlackHeight(t: Tree): nat {
    if t.Leaf? then 0 else BlackHeight(t.l) + if t.black then 1 else 0
  }

  /** No red node has a red child, and every path down has as many black nodes. */
  ghost predicate Balanced(t: Tree) {
    t.Branch? ==>
      && Balanced(t.l) && Balanced(t.r) && BlackHeight(t.l) == BlackHeight(t.r)
      && (!t.black ==> IsBlack(t.l) && IsBlack(t.r))
  }

  /** The path is balanced around a hole of black height h. */
  ghost predicate BalancedPath(c: Path, h: nat) {
    !c.Top? ==>
      && Balanced(c.sib) && BlackHeight(c.sib) == h
      && (!c.black ==> IsBlack(c.sib) && !c.up.Top? && c.up.black)
      && BalancedPath(c.up, if c.black then h + 1 else h)
  }

  // ----- pointers -----

  /** The two memories hold the same nodes and differ only on those of k. */
  ghost predicate Except(m: Memory, m': Memory, k: set<Ptr>) {
    m.Keys == m'.Keys && forall n :: n in m && n !in k ==> m'[n] == m[n]
  }

  /** The pointers draw t below parent p. */
  ghost predicate Linked(m: Memory, t: Tree, p: Ptr) {
    t.Branch? ==>
      && t.n != NULL && t.n in m && m[t.n] == Cell(p, t.black, Root(t.l), Root(t.r))
      && Linked(m, t.l, t.n) && Linked(m, t.r, t.n)
  }

  /** The pointers and the root pointer draw the path c around a hole holding child. */
  ghost predicate LinkedPath(m: Memory, root: Ptr, c: Path, child: Ptr) {
    match c
    case Top => root == child
    case LeftOf(n, b, s, up) =>
      && n != NULL && n in m && m[n] == Cell(Owner(up), b, child, Root(s))
      && Linked(m, s, n) && LinkedPath(m, root, up, n)
    case RightOf(n, b, s, up) =>
      && n != NULL && n in m && m[n] == Cell(Owner(up), b, Root(s), child)
      && Linked(m, s, n) && LinkedPath(m, root, up, n)
  }

  lemma {:induction false} LinkedFrame(m: Memory, m': Memory, k: set<Ptr>, t: Tree, p: Ptr)
    requires Linked(m, t, p) && Except(m, m', k) && k !! Nodes(t)
    ensures Linked(m', t, p)
  {
    if t.Branch? {
      LinkedFrame(m, m', k, t.l, t.n);
      LinkedFrame(m, m', k, t.r, t.n);
    }
  }

  /** Repainting the root of a subtree and hanging it elsewhere keeps it drawn. */
  lemma {:induction false} Reparent(m: Memory, m': Memory, k: set<Ptr>, t: Tree, p: Ptr, p': Ptr, black: bool)
    requires t.Branch? && Linked(m, t, p) && Uniq(t) && Except(m, m', k)
    requires k !! Nodes(t.l) && k !! Nodes(t.r)
    requires m'[t.n] == m[t.n].(parent := p', black := black)
    ensures Linked(m', t.(black := black), p')
  {
    LinkedFrame(m, m', k, t.l, t.n);
    LinkedFrame(m, m', k, t.r, t.n);
  }

  lemma {:induction false} PathFrame(m: Memory, m': Memory, k: set<Ptr>, root: Ptr, c: Path, child: Ptr)
    requires LinkedPath(m, root, c, child) && Except(m, m', k) && k !! PathNodes(c)
    ensures LinkedPath(m', root, c, child)
  {
    if !c.Top? {
      LinkedFrame(m, m', k, c.sib, c.n);
      PathFrame(m, m', k, root, c.up, c.n);
    }
  }

  /** The pointers draw the tree t in the hole of c, and no node occurs twice. */
  ghost predicate At(m: Memory, root: Ptr, c: Path, t: Tree) {
    && Linked(m, t, Owner(c)) && LinkedPath(m, root, c, Root(t))
    && Uniq(t) && UniqPath(c) && Nodes(t) !! PathNodes(c)
  }

  /** The subtree one step up the path. */
  ghost function Up(c: Path, t: Tree): (r: Tree)
    requires !c.Top?
    ensures r.Branch?
  {
    if c.LeftOf? then Branch(t, c.n, c.black, c.sib) else Branch(c.sib, c.n, c.black, t)
  }

  /** A whole valid tree: drawn by the pointers, black root, balanced. */
  ghost predicate Whole(m: Memory, root: Ptr, t: Tree) {
    At(m, root, Top, t) && Balanced(t) && IsBlack(t)
  }

  /** The contents of the tree when t fills the hole of c. */
  ghost function Contents(c: Path, t: Tree): seq<Ptr> {
    Before(c) + InOrder(t) + After(c)
  }

  /** What the hole of a balanced path accepts without a red root or a red-red edge. */
  ghost predicate Fits(c: Path, t: Tree) {
    && Balanced(t) && BalancedPath(c, BlackHeight(t))
    && (c.Top? || !c.black ==> IsBlack(t))
  }

  lemma {:induction false} ContentsUp(c: Path, t: Tree)
    requires !c.Top?
    ensures Contents(c.up, Up(c, t)) == Contents(c, t)
  {
    var a, s, z := Before(c.up), InOrder(c.sib), After(c.up);
    if c.LeftOf? {
      assert a + (InOrder(t) + [c.n] + s) + z == a + InOrder(t) + ([c.n] + s + z);
    } else {
      assert a + (s + [c.n] + InOrder(t)) + z == (a + s + [c.n]) + InOrder(t) + z;
    }
  }


  /** The same tree with a black root. */
  ghost function Paint(t: Tree): Tree {
    if t.Leaf? then t else t.(black := true)
  }

  ghost predicate IsRed(t: Tree) {
    !IsBlack(t)
  }

  /** Balanced except that the root and one of its children may both be red. */
  ghost predicate BalancedBelow(t: Tree) {
    t.Branch? ==> Balanced(t.l) && Balanced(t.r) && BlackHeight(t.l) == BlackHeight(t.r)
  }

  /** The same nodes in the same order. */
  ghost predicate SameList(t: Tree, t': Tree) {
    Nodes(t) == Nodes(t') && InOrder(t) == InOrder(t')
  }

  /** A rotation keeps the nodes, their order and their distinctness. */
  lemma {:induction false} Rotation(t: Tree, t': Tree)
    requires t.Branch? && t.r.Branch? && t'.Branch? && t'.l.Branch?
    requires t.l == t'.l.l && t.n == t'.l.n && t.r.l == t'.l.r && t.r.n == t'.n && t.r.r == t'.r
    ensures SameList(t, t') && Uniq(t) == Uniq(t')
  {
    assert Uniq(t.r) == (Uniq(t.r.l) && Uniq(t.r.r) && Nodes(t.r.l) !! {t.r.n} !! Nodes(t.r.r));
    assert Uniq(t'.l) == (Uniq(t'.l.l) && Uniq(t'.l.r) && Nodes(t'.l.l) !! {t'.l.n} !! Nodes(t'.l.r));
  }

  ghost function Members(c: Path, t: Tree): set<Ptr> {
    Nodes(t) + PathNodes(c)
  }

  /** The same nodes in the same order, seen from two places in the tree. */
  ghost predicate SamePlace(c: Path, t: Tree, c': Path, t': Tree) {
    Contents(c, t) == Contents(c', t') && Members(c, t) == Members(c', t')
  }

  lemma {:induction false} SameListPlace(c: Path, t: Tree, t': Tree)
    requires SameList(t, t')
    ensures SamePlace(c, t, c, t')
  {
  }

  lemma {:induction false} SamePlaceTrans(c: Path, t: Tree, c': Path, t': Tree, c'': Path, t'': Tree)
    requires SamePlace(c, t, c', t') && SamePlace(c', t', c'', t'')
    ensures SamePlace(c, t, c'', t'')
  {
  }

  lemma {:induction false} PlaceRefl(c: Path, t: Tree, m: Memory)
    ensures SamePlace(c, t, c, t) && Except(m, m, Members(c, t))
  {
  }

  /** One more step that keeps the contents and touches only the tree's own nodes. */
  lemma {:induction false} Onward(m0: Memory, m: Memory, m': Memory, c0: Path, t0: Tree, c: Path, t: Tree, c': Path, t': Tree)
    requires SamePlace(c0, t0, c, t) && SamePlace(c, t, c', t')
    requires Except(m0, m, Members(c0, t0)) && Except(m, m', Members(c, t))
    ensures SamePlace(c0, t0, c', t') && Except(m0, m', Members(c0, t0))
  {
  }

  lemma {:induction false} PlaceUp(c: Path, t: Tree)
    requires !c.Top?
    ensures SamePlace(c, t, c.up, Up(c, t))
  {
    ContentsUp(c, t);
  }

  lemma {:induction false} AtUp(m: Memory, root: Ptr, c: Path, t: Tree)
    requires At(m, root, c, t) && !c.Top?
    ensures At(m, root, c.up, Up(c, t)) && Linked(m, c.sib, c.n) && Uniq(c.sib)
  {
  }

  /** A fitting subtree in a drawn path makes a whole tree with the same contents. */
  lemma {:induction false} PlugWhole(m: Memory, root: Ptr, c: Path, t: Tree)
    requires At(m, root, c, t) && Fits(c, t)
    ensures Whole(m, root, Plug(c, t)) && SamePlace(c, t, Top, Plug(c, t))
    decreases c
  {
    if !c.Top? {
      AtUp(m, root, c, t);
      PlaceUp(c, t);
      PlugWhole(m, root, c.up, Up(c, t));
      SamePlaceTrans(c, t, c.up, Up(c, t), Top, Plug(c, t));
    }
  }

  // ----- insertion -----

  /** A red subtree whose only fault may be a red parent, or being the root. */
  ghost predicate Pending(m: Memory, root: Ptr, c: Path, t: Tree) {
    && t.Branch? && !t.black && Linked(m, t, Owner(c)) && (c.Top? || LinkedPath(m, root, c, t.n))
    && Uniq(t) && UniqPath(c) && Nodes(t) !! PathNodes(c)
    && Balanced(t) && BalancedPath(c, BlackHeight(t))
  }

  /** The pointers around a pending node. */
  lemma {:induction false} PendingPointers(m: Memory, root: Ptr, c: Path, t: Tree)
    requires Pending(m, root, c, t)
    ensures t.Branch? && t.n != NULL && t.n in m && m[t.n].parent == Owner(c)
    ensures !c.Top? ==> c.n != NULL && c.n in m && m[c.n].black == c.black
    ensures !c.Top? && c.black ==> At(m, root, c, t) && Fits(c, t)
  {
  }

  /** Painting a pending root black completes the tree. */
  lemma {:induction false} PaintedRoot(m: Memory, root: Ptr, t: Tree, m': Memory)
    requires Pending(m, root, Top, t) && m' == m[t.n := m[t.n].(parent := NULL, black := true)]
    ensures Whole(m', t.n, t.(black := true)) && SamePlace(Top, t, Top, t.(black := true))
    ensures Except(m, m', Members(Top, t))
  {
    Reparent(m, m', {t.n}, t, NULL, NULL, true);
  }

  /** A subtree p, its parent g, its sibling u and the path above g, without repetition. */
  ghost predicate Apart(p: Tree, g: Ptr, u: Tree, c: Path) {
    Uniq(p) && Uniq(u) && UniqPath(c) && Nodes(p) !! {g} !! Nodes(u) !! PathNodes(c)
  }

  /** The grandparent's subtree when the parent is red. */
  lemma {:induction false} RedParentLinks(m: Memory, root: Ptr, c: Path, t: Tree)
    requires Pending(m, root, c, t) && !c.Top? && !c.black
    ensures !c.up.Top? && c.up.black
    ensures var p, u, g, cc := Up(c, t), c.up.sib, c.up.n, c.up.up;
            && Linked(m, p, g) && Linked(m, u, g) && LinkedPath(m, root, cc, g) && Apart(p, g, u, cc)
            && Linked(m, t, c.n) && Linked(m, c.sib, c.n)
  {
    AtUp(m, root, c, t);
    AtUp(m, root, c.up, Up(c, t));
    assert Uniq(Up(c.up, Up(c, t)));
  }

  /** The pointers around a red parent. */
  lemma {:induction false} RedParentPointers(m: Memory, root: Ptr, c: Path, t: Tree)
    requires Pending(m, root, c, t) && !c.Top? && !c.black
    ensures !c.up.Top? && c.up.black
    ensures var g, u := c.up.n, c.up.sib;
            && c.n in m && g in m && g != NULL && c.n != NULL && m[c.n].parent == g
            && m[c.n].left == Root(Up(c, t).l) && m[c.n].right == Root(Up(c, t).r) && t.n != Root(c.sib)
            && m[g].left == (if c.up.LeftOf? then c.n else Root(u))
            && m[g].right == (if c.up.LeftOf? then Root(u) else c.n)
            && m[g].parent == Owner(c.up.up) && m[g].black
            && c.n != Root(u) && (u.Branch? ==> u.n != NULL && u.n in m && m[u.n].black == u.black)
  {
    RedParentLinks(m, root, c, t);
    assert LinkedPath(m, root, c.up, c.n);
  }

  lemma {:induction false} RedParentShape(c: Path, t: Tree)
    requires !c.Top? && !c.black && t.Branch? && !t.black && Balanced(t) && BalancedPath(c, BlackHeight(t))
    ensures !c.up.Top? && c.up.black
    ensures var p, u, cc := Up(c, t), c.up.sib, c.up.up;
            && SamePlace(c, t, cc, Up(c.up, p)) && IsBlack(c.sib)
            && BalancedBelow(p) && Balanced(u) && BlackHeight(u) == BlackHeight(p) == BlackHeight(t)
            && BalancedPath(cc, BlackHeight(t) + 1)
  {
    PlaceUp(c, t);
    PlaceUp(c.up, Up(c, t));
    SamePlaceTrans(c, t, c.up, Up(c, t), c.up.up, Up(c.up, Up(c, t)));
    assert BalancedPath(c.up, BlackHeight(t));
  }

  /** The parent's subtree after the red node has been rotated above its parent. */
  ghost function Risen(c: Path, t: Tree): Tree
    requires !c.Top? && t.Branch?
  {
    if c.RightOf? then Branch(Branch(c.sib, c.n, false, t.l), t.n, false, t.r)
    else Branch(t.l, t.n, false, Branch(t.r, c.n, false, c.sib))
  }

  lemma {:induction false} RisenApart(m: Memory, root: Ptr, c: Path, t: Tree)
    requires Pending(m, root, c, t) && !c.Top? && !c.black
    ensures Linked(m, t, c.n) && IsBlack(t.l) && IsBlack(t.r)
    ensures Uniq(Up(c, t)) && Uniq(t) && Nodes(Risen(c, t)) == Nodes(Up(c, t))
    ensures !c.up.Top? && Apart(Risen(c, t), c.up.n, c.up.sib, c.up.up)
  {
    RedParentLinks(m, root, c, t);
    if c.RightOf? {
      Rotation(Up(c, t), Risen(c, t));
    } else {
      Rotation(Risen(c, t), Up(c, t));
    }
  }

  lemma {:induction false} SameListBranch(l: Tree, n: Ptr, black: bool, r: Tree, l': Tree, black': bool, r': Tree)
    requires SameList(l, l') && SameList(r, r')
    ensures SameList(Branch(l, n, black, r), Branch(l', n, black', r'))
  {
  }

  lemma {:induction false} SameListPaint(t: Tree)
    ensures SameList(t, Paint(t))
  {
  }

  /** The grandparent's subtree, rearranged, keeps its place. */
  lemma {:induction false} GrandPlace(c: Path, t: Tree, t': Tree)
    requires !c.Top? && !c.up.Top? && SameList(Up(c.up, Up(c, t)), t')
    ensures SamePlace(c, t, c.up.up, t')
  {
    PlaceUp(c, t);
    PlaceUp(c.up, Up(c, t));
    var g := Up(c.up, Up(c, t));
    SameListPlace(c.up.up, g, t');
    SamePlaceTrans(c, t, c.up, Up(c, t), c.up.up, g);
    SamePlaceTrans(c, t, c.up.up, g, c.up.up, t');
  }

  /** Moving the inner red node over both its parent and its grandparent. */
  lemma {:induction false} InnerRotated(c: Path, t: Tree, t': Tree)
    requires t.Branch? && !t.black && Balanced(t)
    requires !c.Top? && !c.black && BalancedPath(c, BlackHeight(t)) && IsBlack(c.up.sib)
    requires c.LeftOf? != c.up.LeftOf?
    requires var u, s, g := c.up.sib, c.sib, c.up.n;
             t' == if c.up.LeftOf? then Branch(Branch(s, c.n, false, t.l), t.n, true, Branch(t.r, g, false, u))
                                   else Branch(Branch(u, g, false, t.l), t.n, true, Branch(t.r, c.n, false, s))
    ensures Fits(c.up.up, t') && SamePlace(c, t, c.up.up, t')
  {
    RedParentShape(c, t);
    var u, g, p, q := c.up.sib, c.up.n, Up(c, t), Risen(c, t);
    if c.up.LeftOf? {
      Rotation(p, q);
      SameListBranch(p, g, true, u, q, true, u);
      Rotation(t', Branch(q, g, true, u));
    } else {
      Rotation(q, p);
      SameListBranch(u, g, true, p, u, true, q);
      Rotation(Branch(u, g, true, q), t');
    }
    GrandPlace(c, t, t');
  }

  /** Moving the red parent of an outer red node over its grandparent. */
  lemma {:induction false} OuterRotated(c: Path, t: Tree, t': Tree)
    requires t.Branch? && !t.black && Balanced(t)
    requires !c.Top? && !c.black && BalancedPath(c, BlackHeight(t)) && IsBlack(c.up.sib)
    requires c.LeftOf? == c.up.LeftOf?
    requires var u, s, g := c.up.sib, c.sib, c.up.n;
             t' == if c.up.LeftOf? then Branch(t, c.n, true, Branch(s, g, false, u))
                                   else Branch(Branch(u, g, false, s), c.n, true, t)
    ensures Fits(c.up.up, t') && SamePlace(c, t, c.up.up, t')
  {
    RedParentShape(c, t);
    var g := Up(c.up, Up(c, t));
    if c.up.LeftOf? {
      Rotation(t', g);
    } else {
      Rotation(g, t');
    }
    GrandPlace(c, t, t');
  }

  /** Painting the parent and the uncle black and the grandparent red. */
  lemma {:induction false} Recolored(c: Path, t: Tree, t': Tree)
    requires t.Branch? && !t.black && Balanced(t)
    requires !c.Top? && !c.black && BalancedPath(c, BlackHeight(t)) && IsRed(c.up.sib)
    requires var p, u, g := Paint(Up(c, t)), Paint(c.up.sib), c.up.n;
             t' == if c.up.LeftOf? then Branch(p, g, false, u) else Branch(u, g, false, p)
    ensures Balanced(t') && BalancedPath(c.up.up, BlackHeight(t')) && SamePlace(c, t, c.up.up, t')
  {
    RedParentShape(c, t);
    SameListPaint(Up(c, t));
    SameListPaint(c.up.sib);
    if c.up.LeftOf? {
      SameListBranch(Up(c, t), c.up.n, true, c.up.sib, Paint(Up(c, t)), false, Paint(c.up.sib));
    } else {
      SameListBranch(c.up.sib, c.up.n, true, Up(c, t), Paint(c.up.sib), false, Paint(Up(c, t)));
    }
    GrandPlace(c, t, t');
  }

  /** The same step on the pointers: three nodes change colour and nothing else. */
  lemma {:induction false} RecoloredPending(m: Memory, m': Memory, root: Ptr, c: Path, t: Tree, t': Tree)
    requires Pending(m, root, c, t) && !c.Top? && !c.black && !c.up.Top? && IsRed(c.up.sib)
    requires {c.n, c.up.n, c.up.sib.n} <= m.Keys
    requires m' == m[c.up.sib.n := m[c.up.sib.n].(parent := c.up.n, black := true)]
                    [c.n := m[c.n].(parent := c.up.n, black := true)]
                    [c.up.n := m[c.up.n].(black := false)]
    requires var p, u, g := Paint(Up(c, t)), Paint(c.up.sib), c.up.n;
             t' == if c.up.LeftOf? then Branch(p, g, false, u) else Branch(u, g, false, p)
    ensures Pending(m', root, c.up.up, t') && SamePlace(c, t, c.up.up, t') && Except(m, m', Members(c, t))
  {
    hide InOrder, Before, After, Contents, Balanced, BalancedPath, BlackHeight, SamePlace;
    var p, u, g, cc := Up(c, t), c.up.sib, c.up.n, c.up.up;
    RedParentLinks(m, root, c, t);
    RedParentPointers(m, root, c, t);
    Recolored(c, t, t');
    var k := {c.n, g, u.n};
    assert Except(m, m', k);
    assert Linked(m', Paint(p), g) by { Reparent(m, m', k, p, g, g, true); }
    assert Linked(m', Paint(u), g) by { Reparent(m, m', k, u, g, g, true); }
    PathFrame(m, m', k, root, cc, g);
    assert Uniq(Paint(p)) && Uniq(Paint(u));
    assert Linked(m', t', Owner(cc));
    assert Uniq(t');
    assert Nodes(t') !! PathNodes(cc);
    assert UniqPath(cc);
    assert LinkedPath(m', root, cc, t'.n);
    assert Balanced(t') && BalancedPath(cc, BlackHeight(t'));
  }

  // ----- descent and order -----

  /** A strict weak order: what the comparison callback has to be. */
  ghost predicate StrictWeakOrder(less: (Ptr, Ptr) -> bool) {
    && (forall x :: !less(x, x))
    && (forall x, y, z :: less(x, y) && less(y, z) ==> less(x, z))
    && (forall x, y, z :: less(x, z) ==> less(x, y) || less(y, z))
  }

  ghost predicate Sorted(less: (Ptr, Ptr) -> bool, s: seq<Ptr>) {
    forall i, j :: 0 <= i < j < |s| ==> less(s[i], s[j])
  }

  ghost predicate Equivalent(less: (Ptr, Ptr) -> bool, x: Ptr, y: Ptr) {
    !less(x, y) && !less(y, x)
  }

  /** The key of node lies in the hole of c. */
  ghost predicate Between(less: (Ptr, Ptr) -> bool, c: Path, node: Ptr) {
    && (forall x :: x in Before(c) ==> less(x, node))
    && (forall x :: x in After(c) ==> less(node, x))
  }

  ghost function GoLeft(c: Path, t: Tree): Path
    requires t.Branch?
  {
    LeftOf(t.n, t.black, t.r, c)
  }

  ghost function GoRight(c: Path, t: Tree): Path
    requires t.Branch?
  {
    RightOf(t.n, t.black, t.l, c)
  }

  lemma {:induction false} Descend(m: Memory, root: Ptr, c: Path, t: Tree)
    requires At(m, root, c, t) && Fits(c, t) && t.Branch?
    ensures t.n != NULL && t.n in m && m[t.n].left == Root(t.l) && m[t.n].right == Root(t.r)
    ensures (Root(t.l) == NULL <==> t.l.Leaf?) && (Root(t.r) == NULL <==> t.r.Leaf?)
    ensures At(m, root, GoLeft(c, t), t.l) && Fits(GoLeft(c, t), t.l)
    ensures At(m, root, GoRight(c, t), t.r) && Fits(GoRight(c, t), t.r)
    ensures SamePlace(c, t, GoLeft(c, t), t.l) && SamePlace(c, t, GoRight(c, t), t.r)
  {
    ContentsUp(GoLeft(c, t), t.l);
    ContentsUp(GoRight(c, t), t.r);
    assert Up(GoLeft(c, t), t.l) == t && Up(GoRight(c, t), t.r) == t;
    assert Linked(m, t.l, t.n) && Linked(m, t.r, t.n);
  }

  lemma {:induction false} InContents(c: Path, t: Tree, x: Ptr)
    requires t.Branch?
    ensures x in Contents(c, t) <==> x in Before(c) || x in InOrder(t.l) || x == t.n || x in InOrder(t.r) || x in After(c)
  {
  }

  lemma {:induction false} SortedAround(less: (Ptr, Ptr) -> bool, s: seq<Ptr>, a: seq<Ptr>, n: Ptr, b: seq<Ptr>)
    requires Sorted(less, s) && s == a + [n] + b
    ensures forall x :: x in a ==> less(x, n)
    ensures forall x :: x in b ==> less(n, x)
  {
    forall x | x in a ensures less(x, n) {
      var i :| 0 <= i < |a| && a[i] == x;
      assert s[i] == x && s[|a|] == n;
    }
    forall x | x in b ensures less(n, x) {
      var i :| 0 <= i < |b| && b[i] == x;
      assert s[|a| + 1 + i] == x && s[|a|] == n;
    }
  }

  lemma {:induction false} DescendOrder(less: (Ptr, Ptr) -> bool, c: Path, t: Tree, node: Ptr)
    requires StrictWeakOrder(less) && Sorted(less, Contents(c, t)) && t.Branch? && Between(less, c, node)
    ensures less(node, t.n) ==> Between(less, GoLeft(c, t), node)
    ensures less(t.n, node) ==> Between(less, GoRight(c, t), node)
  {
    var a, b := Before(c) + InOrder(t.l), InOrder(t.r) + After(c);
    assert Contents(c, t) == a + [t.n] + b;
    SortedAround(less, Contents(c, t), a, t.n, b);
    assert After(GoLeft(c, t)) == [t.n] + b && Before(GoRight(c, t)) == a + [t.n];
  }

  /** At an empty place the contents split around the key. */
  lemma {:induction false} BetweenAll(less: (Ptr, Ptr) -> bool, c: Path, node: Ptr)
    requires StrictWeakOrder(less) && Between(less, c, node)
    ensures forall x :: x in Contents(c, Leaf) ==> !Equivalent(less, x, node)
  {
  }

  lemma {:induction false} InsertedSorted(less: (Ptr, Ptr) -> bool, c: Path, node: Ptr)
    requires StrictWeakOrder(less) && Between(less, c, node) && Sorted(less, Contents(c, Leaf))
    ensures Sorted(less, Contents(c, Branch(Leaf, node, false, Leaf)))
    ensures var s, i := Contents(c, Leaf), |Before(c)|;
            i <= |s| && Contents(c, Branch(Leaf, node, false, Leaf)) == s[..i] + [node] + s[i..]
  {
    var s, i := Contents(c, Leaf), |Before(c)|;
    var u := Contents(c, Branch(Leaf, node, false, Leaf));
    assert s[..i] == Before(c) && s[i..] == After(c);
    assert u == s[..i] + [node] + s[i..];
    forall a, b | 0 <= a < b < |u| ensures less(u[a], u[b]) {
      assert a < i ==> u[a] == s[a] && s[a] in Before(c);
      assert a > i ==> u[a] == s[a - 1];
      assert b < i ==> u[b] == s[b];
      assert b > i ==> u[b] == s[b - 1] && s[b - 1] in After(c);
    }
  }

  /** Linking a new red leaf into an empty place leaves it pending. */
  lemma {:induction false} Attached(m: Memory, m': Memory, root: Ptr, c: Path, node: Ptr)
    requires At(m, root, c, Leaf) && Fits(c, Leaf) && node != NULL && node !in PathNodes(c) && node in m
    requires m' == (if c.Top? then m else if c.n !in m then m
                    else if c.LeftOf? then m[c.n := m[c.n].(left := node)]
                    else m[c.n := m[c.n].(right := node)])
                   [node := Cell(Owner(c), false, NULL, NULL)]
    ensures Pending(m', root, c, Branch(Leaf, node, false, Leaf))
    ensures Except(m, m', Members(c, Branch(Leaf, node, false, Leaf)))
  {
    if !c.Top? {
      LinkedFrame(m, m', {c.n, node}, c.sib, c.n);
      PathFrame(m, m', {c.n, node}, root, c.up, c.n);
    }
  }

  // ----- heights -----

  ghost function Max(a: nat, b: nat): nat {
    if a < b then b else a
  }

  ghost function Height(t: Tree): nat {
    if t.Leaf? then 0 else 1 + Max(Height(t.l), Height(t.r))
  }

  lemma {:induction false} HeightBounds(t: Tree)
    requires Balanced(t)
    ensures Height(t) <= 2 * BlackHeight(t) + if IsBlack(t) then 0 else 1
    ensures Pow2(BlackHeight(t)) <= |InOrder(t)| + 1
  {
    if t.Branch? {
      HeightBounds(t.l);
      HeightBounds(t.r);
    }
  }

  /** A balanced tree of n nodes with a black root is at most 2 log2(n + 1) high. */
  lemma {:induction false} LogarithmicHeight(t: Tree)
    requires Balanced(t) && IsBlack(t)
    ensures Pow2(Height(t)) <= (|InOrder(t)| + 1) * (|InOrder(t)| + 1)
  {
    HeightBounds(t);
    var b, n := BlackHeight(t), |InOrder(t)| + 1;
    Pow2Mono(Height(t), b + b);
    Pow2Add(b, b);
    SquareMono(Pow2(b), n);
  }

  // ----- insertion as a whole -----

  ghost predicate Inserted(s: seq<Ptr>, s': seq<Ptr>, node: Ptr) {
    exists i :: 0 <= i <= |s| && s' == s[..i] + [node] + s[i..]
  }

  ghost predicate Removed(s: seq<Ptr>, s': seq<Ptr>, node: Ptr) {
    exists i :: 0 <= i < |s| && s[i] == node && s' == s[..i] + s[i + 1..]
  }

  lemma {:induction false} DescentStart(m0: Memory, m: Memory, root: Ptr, t: Tree, less: (Ptr, Ptr) -> bool, node: Ptr)
    requires Whole(m0, root, t) && (m == m0 || (node !in Nodes(t) && Except(m0, m, {node})))
    ensures root == Root(t) && (root == NULL <==> t.Leaf?)
    ensures Whole(m, root, t) && At(m, root, Top, t) && Fits(Top, t)
    ensures SamePlace(Top, t, Top, t) && Between(less, Top, node)
  {
    if m != m0 {
      LinkedFrame(m0, m, {node}, t, NULL);
    }
  }

  lemma {:induction false} PlaceOrder(less: (Ptr, Ptr) -> bool, tree: Tree, c: Path, t: Tree, node: Ptr)
    requires StrictWeakOrder(less) && Sorted(less, InOrder(tree)) && SamePlace(Top, tree, c, t)
    requires t.Branch? && Between(less, c, node)
    ensures less(node, t.n) ==> Between(less, GoLeft(c, t), node)
    ensures less(t.n, node) ==> Between(less, GoRight(c, t), node)
    ensures t.n in InOrder(tree)
  {
    assert Contents(Top, tree) == InOrder(tree);
    DescendOrder(less, c, t, node);
    InContents(c, t, t.n);
  }

  lemma {:induction false} EmptyPlace(tree: Tree, c: Path, node: Ptr)
    requires SamePlace(Top, tree, c, Leaf) && node !in Nodes(tree)
    ensures node !in PathNodes(c) && (c.Top? || c.n != node)
  {
  }

  lemma {:induction false} InsertDone(less: (Ptr, Ptr) -> bool, tree: Tree, c: Path, node: Ptr, tree': Tree)
    requires StrictWeakOrder(less) && Sorted(less, InOrder(tree)) && SamePlace(Top, tree, c, Leaf)
    requires Between(less, c, node) && SamePlace(c, Branch(Leaf, node, false, Leaf), Top, tree')
    ensures Sorted(less, InOrder(tree')) && Inserted(InOrder(tree), InOrder(tree'), node)
    ensures Nodes(tree') == Nodes(tree) + {node}
    ensures forall x :: x in InOrder(tree) ==> !Equivalent(less, x, node)
    ensures Members(c, Branch(Leaf, node, false, Leaf)) == Nodes(tree) + {node}
  {
    assert Contents(Top, tree) == InOrder(tree) && Contents(Top, tree') == InOrder(tree');
    InsertedSorted(less, c, node);
    BetweenAll(less, c, node);
    assert Nodes(Branch(Leaf, node, false, Leaf)) == {node};
  }

  lemma {:induction false} ExceptUnion(m: Memory, m1: Memory, m2: Memory, m3: Memory, s: set<Ptr>, node: Ptr)
    requires Except(m, m1, {node}) && Except(m1, m2, s + {node}) && Except(m2, m3, s + {node})
    ensures Except(m, m3, s + {node})
  {
  }

  lemma {:induction false} LookupFails(less: (Ptr, Ptr) -> bool, tree: Tree, c: Path, node: Ptr)
    requires StrictWeakOrder(less) && SamePlace(Top, tree, c, Leaf) && Between(less, c, node)
    ensures forall x :: x in InOrder(tree) ==> !Equivalent(less, x, node)
  {
    assert Contents(Top, tree) == InOrder(tree);
    BetweenAll(less, c, node);
  }

  lemma {:induction false} LogarithmicSteps(t: Tree, steps: nat)
    requires Balanced(t) && IsBlack(t) && steps <= Height(t)
    ensures Pow2(steps) <= (|InOrder(t)| + 1) * (|InOrder(t)| + 1)
  {
    LogarithmicHeight(t);
    Pow2Mono(steps, Height(t));
  }

  // ----- erasure -----

  /** A black subtree with one black node too few for its place. */
  ghost predicate Short(m: Memory, root: Ptr, c: Path, t: Tree) {
    At(m, root, c, t) && Balanced(t) && IsBlack(t) && BalancedPath(c, BlackHeight(t) + 1)
  }

  /** The pointers around the owner of a short subtree: there is a sibling. */
  lemma {:induction false} ShortPointers(m: Memory, root: Ptr, c: Path, t: Tree)
    requires Short(m, root, c, t) && !c.Top?
    ensures c.sib.Branch? && c.n != NULL && c.n in m && m[c.n].black == c.black && m[c.n].parent == Owner(c.up)
    ensures var s := c.sib;
            && s.n != NULL && s.n in m && m[s.n] == Cell(c.n, s.black, Root(s.l), Root(s.r)) && s.n != Root(t)
    ensures m[c.n].left == (if c.LeftOf? then Root(t) else c.sib.n)
    ensures m[c.n].right == (if c.LeftOf? then c.sib.n else Root(t))
  {
    assert Linked(m, c.sib, c.n);
  }

  /** The nephews of a short subtree. */
  lemma {:induction false} NephewPointers(m: Memory, root: Ptr, c: Path, t: Tree)
    requires Short(m, root, c, t) && !c.Top? && c.sib.Branch?
    ensures forall s :: s == c.sib.l || s == c.sib.r ==>
              && (Root(s) == NULL <==> s.Leaf?)
              && (s.Branch? ==> s.n in m && m[s.n] == Cell(c.sib.n, s.black, Root(s.l), Root(s.r)))
  {
    assert Linked(m, c.sib, c.n);
    assert Linked(m, c.sib.l, c.sib.n) && Linked(m, c.sib.r, c.sib.n);
  }

  /** The parts around a short subtree, for moving them about. */
  lemma {:induction false} ShortParts(m: Memory, root: Ptr, c: Path, t: Tree)
    requires Short(m, root, c, t) && !c.Top?
    ensures Linked(m, t, c.n) && Linked(m, c.sib, c.n) && LinkedPath(m, root, c.up, c.n)
    ensures Apart(t, c.n, c.sib, c.up) && c.sib.Branch? && Uniq(Up(c, t))
    ensures Linked(m, c.sib.l, c.sib.n) && Linked(m, c.sib.r, c.sib.n) && Uniq(c.sib.l) && Uniq(c.sib.r)
  {
    ShortPointers(m, root, c, t);
  }

  /** Case 1: the sibling is red; after the rotation its near child is the new sibling. */
  ghost function Case1Path(c: Path): Path
    requires !c.Top? && c.sib.Branch?
  {
    if c.LeftOf? then LeftOf(c.n, false, c.sib.l, LeftOf(c.sib.n, true, c.sib.r, c.up))
    else RightOf(c.n, false, c.sib.r, RightOf(c.sib.n, true, c.sib.l, c.up))
  }

  lemma {:induction false} Case1Shape(c: Path, t: Tree)
    requires !c.Top? && IsRed(c.sib) && Balanced(t) && IsBlack(t) && BalancedPath(c, BlackHeight(t) + 1)
    ensures c.black && BalancedPath(Case1Path(c), BlackHeight(t) + 1) && SamePlace(c, t, Case1Path(c), t)
    ensures Case1Path(c).sib.Branch? && Case1Path(c).sib.black
  {
    var d := Case1Path(c);
    PlaceUp(c, t);
    PlaceUp(d, t);
    PlaceUp(d.up, Up(d, t));
    if c.LeftOf? {
      Rotation(Up(c, t), Up(d.up, Up(d, t)));
    } else {
      Rotation(Up(d.up, Up(d, t)), Up(c, t));
    }
    SameListPlace(c.up, Up(c, t), Up(d.up, Up(d, t)));
    assert BalancedPath(d.up, BlackHeight(t) + 1);
  }

  /** Case 2: the sibling and both nephews are black, so the sibling turns red. */
  ghost function Case2Tree(c: Path, t: Tree): Tree
    requires !c.Top? && c.sib.Branch?
  {
    var s := c.sib.(black := false);
    if c.LeftOf? then Branch(t, c.n, true, s) else Branch(s, c.n, true, t)
  }

  lemma {:induction false} Case2Shape(c: Path, t: Tree)
    requires !c.Top? && c.sib.Branch? && c.sib.black && IsBlack(c.sib.l) && IsBlack(c.sib.r)
    requires Balanced(t) && IsBlack(t) && BalancedPath(c, BlackHeight(t) + 1)
    ensures var r := Case2Tree(c, t);
            && Balanced(r) && IsBlack(r) && SamePlace(c, t, c.up, r)
            && BalancedPath(c.up, if c.black then BlackHeight(r) + 1 else BlackHeight(r))
  {
    var r, s := Case2Tree(c, t), c.sib.(black := false);
    PlaceUp(c, t);
    assert SameList(c.sib, s);
    if c.LeftOf? {
      SameListBranch(t, c.n, c.black, c.sib, t, true, s);
    } else {
      SameListBranch(c.sib, c.n, c.black, t, s, true, t);
    }
    SameListPlace(c.up, Up(c, t), r);
  }

  /**
   Case 4: the far nephew f of a short subtree is red (or case 3 has made it so);
   the sibling, whose near subtree is a, takes the owner's place and colour.
   */
  ghost function Case4Tree(c: Path, t: Tree, a: Tree, n: Ptr, f: Tree): Tree
    requires !c.Top?
  {
    if c.LeftOf? then Branch(Branch(t, c.n, true, a), n, c.black, Paint(f))
    else Branch(Paint(f), n, c.black, Branch(a, c.n, true, t))
  }

  lemma {:induction false} Case4Shape(c: Path, t: Tree, a: Tree, n: Ptr, f: Tree)
    requires !c.Top? && Balanced(t) && IsBlack(t) && BalancedPath(c, BlackHeight(t) + 1)
    requires Balanced(a) && Balanced(Paint(f)) && f.Branch?
    requires BlackHeight(a) == BlackHeight(t) && BlackHeight(Paint(f)) == BlackHeight(t) + 1
    requires SameList(c.sib, if c.LeftOf? then Branch(a, n, true, f) else Branch(f, n, true, a))
    ensures var r := Case4Tree(c, t, a, n, f); Fits(c.up, r) && SamePlace(c, t, c.up, r)
  {
    var r := Case4Tree(c, t, a, n, f);
    PlaceUp(c, t);
    SameListPaint(f);
    if c.LeftOf? {
      var q := Branch(t, c.n, true, Branch(a, n, true, f));
      SameListBranch(t, c.n, c.black, c.sib, t, true, q.r);
      Rotation(q, Branch(Branch(t, c.n, true, a), n, c.black, f));
      SameListBranch(r.l, n, c.black, f, r.l, c.black, Paint(f));
    } else {
      var q := Branch(Branch(f, n, true, a), c.n, true, t);
      SameListBranch(c.sib, c.n, c.black, t, q.l, true, t);
      Rotation(Branch(f, n, c.black, Branch(a, c.n, true, t)), q);
      SameListBranch(f, n, c.black, r.r, Paint(f), c.black, r.r);
    }
    SameListPlace(c.up, Up(c, t), r);
  }

  lemma {:induction false} OwnerNull(m: Memory, root: Ptr, c: Path, child: Ptr)
    requires LinkedPath(m, root, c, child)
    ensures Owner(c) == NULL <==> c.Top?
  {
  }

  /**
   What case 4 starts from: the sibling n has near subtree a, still hung on p, and
   far subtree f whose root has any parent and colour; the owner's link to the
   sibling is about to be overwritten.
   */
  ghost predicate Ready4(m: Memory, root: Ptr, c: Path, t: Tree, a: Tree, p: Ptr, n: Ptr, f: Tree) {
    && !c.Top? && f.Branch? && {c.n, n, f.n} <= m.Keys && NULL !in {c.n, n, f.n}
    && (if c.LeftOf? then m[c.n].left == Root(t) && m[n].left == Root(a) && m[n].right == f.n
        else m[c.n].right == Root(t) && m[n].right == Root(a) && m[n].left == f.n)
    && m[c.n].parent == Owner(c.up) && m[c.n].black == c.black && LinkedPath(m, root, c.up, c.n)
    && Linked(m, t, c.n) && Linked(m, a, p)
    && m[f.n].left == Root(f.l) && m[f.n].right == Root(f.r) && Linked(m, f.l, f.n) && Linked(m, f.r, f.n)
    && Apart(t, c.n, if c.LeftOf? then Branch(a, n, true, f) else Branch(f, n, true, a), c.up)
    && Uniq(a) && Uniq(f)
  }

  /** A far nephew that is red already: case 4 applies at once. */
  lemma {:induction false} FarNephewReady(m: Memory, root: Ptr, c: Path, t: Tree)
    requires Short(m, root, c, t) && !c.Top? && c.sib.Branch? && c.sib.black
    requires var f := if c.LeftOf? then c.sib.r else c.sib.l; f.Branch?
    ensures var a, f := if c.LeftOf? then c.sib.l else c.sib.r, if c.LeftOf? then c.sib.r else c.sib.l;
            Ready4(m, root, c, t, a, c.sib.n, c.sib.n, f)
  {
    ShortPointers(m, root, c, t);
    ShortParts(m, root, c, t);
  }

  lemma {:induction false} RedNephew(m: Memory, root: Ptr, c: Path, t: Tree, q: Tree)
    requires Short(m, root, c, t) && !c.Top? && c.sib.Branch? && (q == c.sib.l || q == c.sib.r) && IsRed(q)
    ensures Linked(m, q, c.sib.n) && Uniq(q) && IsBlack(q.l) && IsBlack(q.r)
    ensures Linked(m, q.l, q.n) && Linked(m, q.r, q.n) && Uniq(q.l) && Uniq(q.r) && q.n != NULL
    ensures q.n in m && m[q.n] == Cell(c.sib.n, false, Root(q.l), Root(q.r))
    ensures (q.l.Branch? ==> q.l.n in m) && (q.r.Branch? ==> q.r.n in m)
    ensures (Root(q.l) == NULL <==> q.l.Leaf?) && (Root(q.r) == NULL <==> q.r.Leaf?)
  {
    ShortParts(m, root, c, t);
    assert Balanced(c.sib);
    assert Balanced(q);
    assert Linked(m, q, c.sib.n);
    assert Linked(m, q.l, q.n) && Linked(m, q.r, q.n);
  }

  /** The sibling's subtree with the near nephew rotated to its top. */
  ghost function Case3Sibling(c: Path): Tree
    requires !c.Top? && c.sib.Branch? && (if c.LeftOf? then c.sib.l.Branch? else c.sib.r.Branch?)
  {
    var s := c.sib;
    if c.LeftOf? then Branch(s.l.l, s.l.n, true, Branch(s.l.r, s.n, true, s.r))
    else Branch(Branch(s.l, s.n, true, s.r.l), s.r.n, true, s.r.r)
  }

  lemma {:induction false} Case3Apart(c: Path, t: Tree)
    requires !c.Top? && c.sib.Branch? && (if c.LeftOf? then c.sib.l.Branch? else c.sib.r.Branch?)
    requires Apart(t, c.n, c.sib, c.up)
    ensures Apart(t, c.n, Case3Sibling(c), c.up) && SameList(c.sib, Case3Sibling(c))
    ensures Uniq(Case3Sibling(c).l) && Uniq(Case3Sibling(c).r)
  {
    if c.LeftOf? {
      Rotation(Case3Sibling(c), c.sib);
    } else {
      Rotation(c.sib, Case3Sibling(c));
    }
  }

  lemma {:induction false} Case4Apart(c: Path, t: Tree, a: Tree, n: Ptr, f: Tree)
    requires !c.Top? && f.Branch?
    requires Apart(t, c.n, if c.LeftOf? then Branch(a, n, true, f) else Branch(f, n, true, a), c.up)
    ensures var r := Case4Tree(c, t, a, n, f); Uniq(r) && Nodes(r) !! PathNodes(c.up)
  {
    var r := Case4Tree(c, t, a, n, f);
    if c.LeftOf? {
      Rotation(Branch(t, c.n, true, Branch(a, n, true, Paint(f))), r);
    } else {
      Rotation(r, Branch(Branch(Paint(f), n, true, a), c.n, true, t));
    }
    assert Uniq(Paint(f)) == Uniq(f) && Nodes(Paint(f)) == Nodes(f);
  }

  lemma {:induction false} RootApart(t: Tree)
    requires t.Branch? && Uniq(t)
    ensures {t.n} !! Nodes(t.l) && {t.n} !! Nodes(t.r) && Nodes(t.l) + Nodes(t.r) <= Nodes(t) && t.n in Nodes(t)
  {
  }

  lemma {:induction false} NephewApart(c: Path, t: Tree, q: Tree, far: Tree)
    requires !c.Top? && Apart(t, c.n, c.sib, c.up) && c.sib.Branch? && q.Branch?
    requires (c.sib.l == q && c.sib.r == far) || (c.sib.r == q && c.sib.l == far)
    ensures {c.n} !! {c.sib.n} !! {q.n}
    ensures {c.n, c.sib.n, q.n} !! Nodes(t) !! Nodes(q.l) !! Nodes(q.r) !! Nodes(far) !! PathNodes(c.up)
    ensures Nodes(c.sib) == {c.sib.n, q.n} + Nodes(q.l) + Nodes(q.r) + Nodes(far)
  {
    assert Uniq(q);
  }

  lemma {:induction false} NephewDistinct(m: Memory, root: Ptr, c: Path, t: Tree, q: Tree)
    requires Short(m, root, c, t) && !c.Top? && c.sib.Branch? && (q == c.sib.l || q == c.sib.r) && IsRed(q)
    ensures c.n != c.sib.n && c.n != q.n && c.sib.n != q.n
    ensures q.l.Branch? ==> q.l.n !in {c.n, c.sib.n, q.n}
    ensures q.r.Branch? ==> q.r.n !in {c.n, c.sib.n, q.n}
    ensures {c.n, c.sib.n, q.n} + Head(q.l) + Head(q.r) <= Members(c, t)
  {
    ShortParts(m, root, c, t);
    NephewApart(c, t, q, if q == c.sib.l then c.sib.r else c.sib.l);
  }

  /** A short subtree that is the whole tree is no longer short of anything. */
  lemma {:induction false} ShortTop(m: Memory, root: Ptr, t: Tree)
    requires Short(m, root, Top, t)
    ensures At(m, root, Top, t) && Fits(Top, t)
  {
  }

  lemma {:induction false} FarShape(m: Memory, root: Ptr, c: Path, t: Tree)
    requires Short(m, root, c, t) && !c.Top? && c.sib.Branch? && c.sib.black
    requires IsRed(if c.LeftOf? then c.sib.r else c.sib.l)
    ensures var a, f := if c.LeftOf? then c.sib.l else c.sib.r, if c.LeftOf? then c.sib.r else c.sib.l;
            var r := Case4Tree(c, t, a, c.sib.n, f); Fits(c.up, r) && SamePlace(c, t, c.up, r)
  {
    var a, f := if c.LeftOf? then c.sib.l else c.sib.r, if c.LeftOf? then c.sib.r else c.sib.l;
    assert Balanced(c.sib);
    assert Balanced(f);
    Case4Shape(c, t, a, c.sib.n, f);
  }

  lemma {:induction false} Case3Shape(m: Memory, root: Ptr, c: Path, t: Tree)
    requires Short(m, root, c, t) && !c.Top? && c.sib.Branch? && c.sib.black
    requires if c.LeftOf? then IsRed(c.sib.l) && IsBlack(c.sib.r) else IsRed(c.sib.r) && IsBlack(c.sib.l)
    ensures var s := Case3Sibling(c);
            var a, f := if c.LeftOf? then s.l else s.r, if c.LeftOf? then s.r else s.l;
            var r := Case4Tree(c, t, a, s.n, f); Fits(c.up, r) && SamePlace(c, t, c.up, r)
  {
    var s := Case3Sibling(c);
    var a, f := if c.LeftOf? then s.l else s.r, if c.LeftOf? then s.r else s.l;
    var q := if c.LeftOf? then c.sib.l else c.sib.r;
    assert Balanced(c.sib);
    assert Balanced(q);
    ShortParts(m, root, c, t);
    Case3Apart(c, t);
    Case4Shape(c, t, a, s.n, f);
  }

  lemma {:induction false} FarTouches(m: Memory, m': Memory, c: Path, t: Tree, a: Tree, f: Tree)
    requires !c.Top? && c.sib.Branch? && f.Branch?
    requires (c.sib.l == a && c.sib.r == f) || (c.sib.r == a && c.sib.l == f)
    requires Except(m, m', {c.n, c.sib.n, f.n} + Head(a) + Foot(c.up))
    ensures Except(m, m', Members(c, t))
  {
    assert Head(a) <= Nodes(a) && Foot(c.up) <= PathNodes(c.up) && f.n in Nodes(f);
    assert Nodes(c.sib) == Nodes(a) + {c.sib.n} + Nodes(f);
    assert {c.n, c.sib.n, f.n} + Head(a) + Foot(c.up) <= Members(c, t);
  }

  lemma {:induction false} Case4Touches(m: Memory, m1: Memory, m2: Memory, c: Path, t: Tree,
                                        k: set<Ptr>, x: Tree, a: Tree)
    requires !c.Top? && Except(m, m1, k + Head(x)) && Except(m1, m2, k + Head(a) + Foot(c.up))
    requires k + Head(x) + Head(a) <= Members(c, t)
    ensures Except(m, m2, Members(c, t))
  {
    assert Foot(c.up) <= PathNodes(c.up);
  }

  // ----- taking a node out -----

  /** The path and subtree of a node of the tree. */
  lemma {:induction false} Locate(m: Memory, root: Ptr, c: Path, t: Tree, node: Ptr) returns (c': Path, t': Tree)
    requires At(m, root, c, t) && Fits(c, t) && node in Nodes(t)
    ensures At(m, root, c', t') && Fits(c', t') && SamePlace(c, t, c', t') && t'.Branch? && t'.n == node
    decreases t
  {
    c', t' := c, t;
    if t.n != node {
      Descend(m, root, c, t);
      c', t' := if node in Nodes(t.l) then GoLeft(c, t) else GoRight(c, t), if node in Nodes(t.l) then t.l else t.r;
      var c1, t1 := c', t';
      c', t' := Locate(m, root, c', t', node);
      SamePlaceTrans(c, t, c1, t1, c', t');
    }
  }

  /** t' in the hole of c' holds what t in the hole of c holds, less the root of t. */
  ghost predicate Lost(c: Path, t: Tree, c': Path, t': Tree) {
    && t.Branch? && Members(c', t') == Members(c, t) - {t.n}
    && Contents(c', t') == Before(c) + InOrder(t.l) + InOrder(t.r) + After(c)
  }

  /** A node with at most one child: the child is red and takes over the black. */
  lemma {:induction false} OneChildShape(c: Path, t: Tree)
    requires Fits(c, t) && t.Branch? && (t.l.Leaf? || t.r.Leaf?)
    ensures var x := if t.l.Leaf? then t.r else t.l;
            && (x.Branch? ==> IsRed(x) && t.black && Fits(c, Paint(x)))
            && (x.Leaf? && !t.black ==> Fits(c, Leaf))
            && (x.Leaf? && t.black ==> BalancedPath(c, 1))
  {
    assert Balanced(t.l) && Balanced(t.r);
  }

  lemma {:induction false} OneChildLost(c: Path, t: Tree, x: Tree)
    requires t.Branch? && Uniq(t) && Nodes(t) !! PathNodes(c)
    requires (t.l.Leaf? && x == t.r) || (t.r.Leaf? && x == t.l)
    ensures Lost(c, t, c, Paint(x))
  {
    SameListPaint(x);
    SameListPlace(c, x, Paint(x));
    assert Members(c, x) == Members(c, t) - {t.n};
    assert InOrder(t.l) + InOrder(t.r) == InOrder(x);
    hide InOrder, Nodes, PathNodes, Members, Before, After;
    Regroup(Before(c), InOrder(t.l), t.n, InOrder(t.r), After(c));
    assert Contents(c, x) == Before(c) + (InOrder(t.l) + InOrder(t.r)) + After(c);
  }

  /** c is base below k left turns. */
  ghost predicate LeftChain(c: Path, k: nat, base: Path) {
    if k == 0 then c == base else c.LeftOf? && LeftChain(c.up, k - 1, base)
  }

  /** The owner just below the base of the chain. */
  ghost function TopOwner(c: Path, k: nat): Ptr
    requires k > 0
  {
    if c.Top? then NULL else if k == 1 then c.n else TopOwner(c.up, k - 1)
  }

  /** The path with the owner of its base, k left turns up, replaced by s. */
  ghost function Swap(c: Path, k: nat, s: Ptr): Path
    decreases k
  {
    if c.Top? then c else if k == 0 then c.(n := s) else c.(up := Swap(c.up, k - 1, s))
  }

  /** The nodes whose pointers change when s replaces the owner of the base. */
  ghost function Touched(c: Path, k: nat): set<Ptr>
    decreases k
  {
    if c.Top? then {}
    else if k == 0 then Head(c.sib) + Foot(c.up)
    else if k == 1 then {c.n} + Touched(c.up, 0)
    else Touched(c.up, k - 1)
  }

  lemma {:induction false} TouchedInPath(c: Path, k: nat)
    ensures Touched(c, k) <= PathNodes(c)
    ensures k > 1 && !c.Top? ==> Touched(c, k) <= PathNodes(c.up)
    decreases k
  {
    if !c.Top? && k > 0 {
      TouchedInPath(c.up, k - 1);
    }
    if !c.Top? {
      assert Head(c.sib) <= Nodes(c.sib) && Foot(c.up) <= PathNodes(c.up);
    }
  }

  /** s takes over the links and the colour of the base's owner. */
  lemma {:induction false} SwapLinked(m: Memory, m': Memory, root: Ptr, root': Ptr,
                                      c: Path, child: Ptr, k: nat, base: Path, s: Ptr, e: set<Ptr>)
    requires k > 0 ==> LinkedPath(m, root, c, child)
    requires UniqPath(c) && LeftChain(c, k, base) && base.RightOf?
    requires s != NULL && e !! PathNodes(c) && s in m' && Except(m, m', e + Touched(c, k))
    requires m'[s] == Cell(Owner(base.up), base.black, Root(base.sib), if k == 0 then child else TopOwner(c, k))
    requires Linked(m', base.sib, s) && LinkedPath(m', root', base.up, s)
    requires k > 0 ==> TopOwner(c, k) in m && m'[TopOwner(c, k)] == m[TopOwner(c, k)].(parent := s)
    ensures LinkedPath(m', root', Swap(c, k, s), child)
    decreases k
  {
    if k > 0 {
      TouchedInPath(c, k);
      TouchedInPath(c.up, k - 1);
      var x := e + Touched(c, k);
      assert x !! Nodes(c.sib);
      LinkedFrame(m, m', x, c.sib, c.n);
      if k == 1 {
        assert c.up == base;
      } else {
        SwapLinked(m, m', root, root', c.up, c.n, k - 1, base, s, e);
      }
    }
  }

  lemma {:induction false} ChainApart(c: Path, k: nat, base: Path)
    requires UniqPath(c) && LeftChain(c, k, base) && base.RightOf?
    ensures PathNodes(base) <= PathNodes(c) && UniqPath(base)
    ensures k > 0 ==> c.n in PathNodes(c) && TopOwner(c, k) in PathNodes(c)
    ensures k > 0 ==> c.n !in PathNodes(base) && TopOwner(c, k) !in PathNodes(base)
    ensures Touched(c, k) == Head(base.sib) + Foot(base.up) + if k == 0 then {} else {TopOwner(c, k)}
    decreases k
  {
    if k > 0 {
      ChainApart(c.up, k - 1, base);
    }
  }

  lemma {:induction false} SwapUniq(c: Path, k: nat, base: Path, s: Ptr)
    requires UniqPath(c) && LeftChain(c, k, base) && base.RightOf? && s !in PathNodes(c)
    ensures var d := Swap(c, k, s); UniqPath(d) && PathNodes(d) == PathNodes(c) - {base.n} + {s}
    ensures base.n in PathNodes(c)
    decreases k
  {
    if k > 0 {
      SwapUniq(c.up, k - 1, base, s);
    }
  }

  lemma {:induction false} SwapBalanced(c: Path, k: nat, s: Ptr, h: nat)
    requires BalancedPath(c, h)
    ensures var d := Swap(c, k, s);
            BalancedPath(d, h) && d.Top? == c.Top? && (!c.Top? ==> d.black == c.black)
    decreases k
  {
    if k > 0 && !c.Top? {
      SwapBalanced(c.up, k - 1, s, if c.black then h + 1 else h);
    }
  }

  lemma {:induction false} SwapContents(c: Path, k: nat, base: Path, s: Ptr)
    requires LeftChain(c, k, base) && base.RightOf?
    ensures var d := Swap(c, k, s);
            && Before(c) == Before(base) && After(d) == After(c)
            && Before(d) == Before(base.up) + InOrder(base.sib) + [s]
    decreases k
  {
    if k > 0 {
      SwapContents(c.up, k - 1, base, s);
    }
  }

  lemma {:induction false} CancelPrefix(p: seq<Ptr>, a: seq<Ptr>, b: seq<Ptr>)
    requires p + a == p + b
    ensures a == b
  {
    assert a == (p + a)[|p|..] && b == (p + b)[|p|..];
  }

  /** The successor, moved into the place of the node to erase, keeps everything else in order. */
  lemma {:induction false} SuccessorContents(c: Path, t: Tree, cs: Path, k: nat, ts: Tree)
    requires t.Branch? && ts.Branch? && ts.l.Leaf? && Contents(c, t) == Contents(cs, ts)
    requires LeftChain(cs, k, GoRight(c, t))
    ensures Contents(Swap(cs, k, ts.n), Paint(ts.r)) == Before(c) + InOrder(t.l) + InOrder(t.r) + After(c)
  {
    var d, base, s, x := Swap(cs, k, ts.n), GoRight(c, t), ts.n, InOrder(ts.r);
    SwapContents(cs, k, base, s);
    SameListPaint(ts.r);
    var p, r, z := Before(c) + InOrder(t.l), InOrder(t.r), After(c);
    assert InOrder(ts) == [s] + x;
    hide InOrder, Before, After, LeftChain, Swap;
    assert Contents(cs, ts) == (p + [t.n]) + ([s] + x + After(cs));
    assert Contents(c, t) == (p + [t.n]) + (r + z);
    CancelPrefix(p + [t.n], [s] + x + After(cs), r + z);
    assert Contents(d, Paint(ts.r)) == (p + [s]) + x + After(cs);
    assert (p + [s]) + x + After(cs) == p + ([s] + x + After(cs));
    assert p + (r + z) == p + r + z;
  }

  lemma {:induction false} SuccessorMembers(m: Memory, root: Ptr, c: Path, t: Tree, cs: Path, k: nat, ts: Tree)
    requires t.Branch? && ts.Branch? && ts.l.Leaf? && Members(c, t) == Members(cs, ts) && At(m, root, cs, ts)
    requires LeftChain(cs, k, GoRight(c, t))
    ensures var d := Swap(cs, k, ts.n);
            && Members(d, Paint(ts.r)) == Members(c, t) - {t.n} && UniqPath(d)
            && Nodes(Paint(ts.r)) !! PathNodes(d) && Uniq(Paint(ts.r)) && ts.n !in PathNodes(cs)
  {
    SwapUniq(cs, k, GoRight(c, t), ts.n);
    SameListPaint(ts.r);
    assert Uniq(ts.r) && Uniq(Paint(ts.r));
  }

  lemma {:induction false} SuccessorShape(cs: Path, k: nat, ts: Tree)
    requires ts.Branch? && ts.l.Leaf? && Fits(cs, ts)
    ensures var d, x := Swap(cs, k, ts.n), ts.r;
            && (x.Branch? ==> IsRed(x) && ts.black && Fits(d, Paint(x)))
            && (x.Leaf? && !ts.black ==> Fits(d, Leaf))
            && (x.Leaf? && ts.black ==> BalancedPath(d, 1))
  {
    OneChildShape(cs, ts);
    if ts.r.Branch? {
      SwapBalanced(cs, k, ts.n, BlackHeight(Paint(ts.r)));
    } else {
      SwapBalanced(cs, k, ts.n, if ts.black then 1 else 0);
    }
  }

  /** A node with two children, and its successor at the end of a chain of left turns. */
  ghost predicate Successor(m: Memory, root: Ptr, c: Path, t: Tree, cs: Path, k: nat, ts: Tree) {
    && At(m, root, c, t) && t.Branch? && t.l.Branch? && t.r.Branch?
    && At(m, root, cs, ts) && ts.Branch? && LeftChain(cs, k, GoRight(c, t))
    && (if k == 0 then ts == t.r else TopOwner(cs, k) == t.r.n)
    && SamePlace(c, t, cs, ts) && Fits(cs, ts)
  }

  lemma {:induction false} SuccessorPointers(m: Memory, root: Ptr, c: Path, t: Tree, cs: Path, k: nat, ts: Tree)
    requires Successor(m, root, c, t, cs, k, ts)
    ensures t.Branch? && t.l.Branch? && t.r.Branch? && ts.Branch?
    ensures NULL !in {t.n, t.l.n, t.r.n, ts.n} && {t.n, t.l.n, t.r.n, ts.n} <= m.Keys
    ensures m[t.n] == Cell(Owner(c), t.black, t.l.n, t.r.n)
    ensures m[ts.n] == Cell(Owner(cs), ts.black, Root(ts.l), Root(ts.r)) && Owner(cs) in m
    ensures (Root(ts.l) == NULL <==> ts.l.Leaf?) && (Root(ts.r) == NULL <==> ts.r.Leaf?)
    ensures ts.r.Branch? ==> ts.r.n in m
    ensures Owner(cs) == if k == 0 then t.n else cs.n
    ensures k > 0 ==> cs.n != NULL
  {
    assert Linked(m, t.l, t.n) && Linked(m, t.r, t.n);
    assert Linked(m, ts.l, ts.n) && Linked(m, ts.r, ts.n);
  }

  lemma {:induction false} SuccessorDistinct(m: Memory, root: Ptr, c: Path, t: Tree, cs: Path, k: nat, ts: Tree)
    requires Successor(m, root, c, t, cs, k, ts)
    ensures {t.n} !! {t.l.n} !! {ts.n} !! Head(ts.r) !! Foot(c)
    ensures k > 0 ==> {t.n} !! {t.l.n} !! {ts.n} !! Head(ts.r) !! Foot(c) !! {cs.n, t.r.n}
    ensures {ts.n} !! PathNodes(cs) && Head(ts.r) !! PathNodes(cs) && Nodes(t.l) + PathNodes(c) <= PathNodes(cs)
    ensures ({t.n, t.l.n, ts.n} + Head(ts.r)) !! PathNodes(c) && (k > 0 ==> {cs.n, t.r.n} !! PathNodes(c))
    ensures LinkedPath(m, root, c, t.n) && UniqPath(c)
  {
    ChainApart(cs, k, GoRight(c, t));
    assert t.l.n in Nodes(t.l) && Foot(c) <= PathNodes(c) && Head(ts.r) <= Nodes(ts.r);
  }

  /** One step down the chain of left turns. */
  lemma {:induction false} SuccessorLeft(m: Memory, root: Ptr, c: Path, t: Tree, cs: Path, k: nat, ts: Tree)
    requires Successor(m, root, c, t, cs, k, ts) && ts.l.Branch?
    ensures Successor(m, root, c, t, GoLeft(cs, ts), k + 1, ts.l)
  {
    Descend(m, root, cs, ts);
    SamePlaceTrans(c, t, cs, ts, GoLeft(cs, ts), ts.l);
  }

  lemma {:induction false} SuccessorStart(m: Memory, root: Ptr, c: Path, t: Tree)
    requires At(m, root, c, t) && Fits(c, t) && t.Branch? && t.l.Branch? && t.r.Branch?
    ensures Successor(m, root, c, t, GoRight(c, t), 0, t.r)
  {
    Descend(m, root, c, t);
  }

  /** A deep successor taken from its place and given the right child of the node. */
  ghost function Lifted(m: Memory, parent: Ptr, s: Ptr, child: Ptr, child2: Ptr): Memory
    requires {parent, s, child} <= m.Keys
  {
    var m1 := m[parent := m[parent].(left := child2)];
    var m2 := m1[s := m1[s].(right := child)];
    m2[child := m2[child].(parent := s)]
  }

  /** The successor has the node's children and place, but not yet its colour. */
  ghost predicate InPlace(m: Memory, m': Memory, root': Ptr, c: Path, t: Tree, cs: Path, k: nat, ts: Tree)
    requires t.Branch? && t.l.Branch? && t.r.Branch? && ts.Branch? && !cs.Top?
    requires {t.n, t.l.n, t.r.n, ts.n} <= m.Keys && (k > 0 ==> cs.n in m)
  {
    var s, x := ts.n, Root(ts.r);
    && Except(m, m', {s, t.l.n} + Foot(c) + if k == 0 then {} else {cs.n, t.r.n})
    && LinkedPath(m', root', c, s) && m'[t.n] == m[t.n]
    && m'[s] == m[s].(left := t.l.n, right := if k == 0 then m[s].right else t.r.n)
    && m'[t.l.n] == m[t.l.n].(parent := s)
    && (k > 0 && cs.n == t.r.n ==> m'[cs.n] == m[cs.n].(left := x, parent := s))
    && (k > 0 && cs.n != t.r.n ==> m'[cs.n] == m[cs.n].(left := x) && m'[t.r.n] == m[t.r.n].(parent := s))
  }

  /** The pointers once the successor has moved into the place of the node. */
  ghost predicate Moved(m: Memory, m': Memory, root': Ptr, c: Path, t: Tree, cs: Path, k: nat, ts: Tree)
    requires t.Branch? && t.l.Branch? && t.r.Branch? && ts.Branch? && !cs.Top?
    requires {t.l.n, t.r.n, ts.n} <= m.Keys && (k > 0 ==> cs.n in m) && (ts.r.Branch? ==> ts.r.n in m)
  {
    var s, x := ts.n, ts.r;
    && Except(m, m', {s, t.l.n} + Foot(c) + Head(x) + if k == 0 then {} else {cs.n, t.r.n})
    && m'[s] == Cell(Owner(c), t.black, t.l.n, if k == 0 then Root(x) else t.r.n)
    && m'[t.l.n] == m[t.l.n].(parent := s)
    && (k > 0 && cs.n == t.r.n ==> m'[cs.n] == m[cs.n].(left := Root(x), parent := s))
    && (k > 0 && cs.n != t.r.n ==> m'[cs.n] == m[cs.n].(left := Root(x)) && m'[t.r.n] == m[t.r.n].(parent := s))
    && (x.Branch? ==> m'[x.n] == m[x.n].(parent := if k == 0 then s else cs.n, black := true))
    && LinkedPath(m', root', c, s)
  }

  /** With the bottom link of the chain bent past the successor, the chain is still drawn. */
  lemma {:induction false} BentChain(m: Memory, root: Ptr, cs: Path, ts: Tree) returns (m1: Memory)
    requires At(m, root, cs, ts) && cs.LeftOf? && ts.Branch? && cs.n in m
    ensures m1 == m[cs.n := m[cs.n].(left := Root(ts.r))] && LinkedPath(m1, root, cs, Root(ts.r))
  {
    m1 := m[cs.n := m[cs.n].(left := Root(ts.r))];
    LinkedFrame(m, m1, {cs.n}, cs.sib, cs.n);
    PathFrame(m, m1, {cs.n}, root, cs.up, cs.n);
  }

  lemma {:induction false} MovedPath(m: Memory, m': Memory, root: Ptr, root': Ptr,
                                     c: Path, t: Tree, cs: Path, k: nat, ts: Tree)
    requires Successor(m, root, c, t, cs, k, ts) && !cs.Top? && ts.l.Leaf?
    requires {t.l.n, t.r.n, ts.n} <= m.Keys && (k > 0 ==> cs.n in m) && (ts.r.Branch? ==> ts.r.n in m)
    requires Moved(m, m', root', c, t, cs, k, ts)
    ensures LinkedPath(m', root', Swap(cs, k, ts.n), Root(ts.r))
  {
    hide InOrder, Contents, Before, After, Fits;
    var base, e := GoRight(c, t), {ts.n} + Head(ts.r);
    SuccessorPointers(m, root, c, t, cs, k, ts);
    SuccessorDistinct(m, root, c, t, cs, k, ts);
    ChainApart(cs, k, base);
    var m1 := m;
    if k > 0 {
      m1 := BentChain(m, root, cs, ts);
    }
    assert Except(m1, m', e + Touched(cs, k));
    assert Linked(m', t.l, ts.n) by {
      assert Linked(m, t.l, t.n);
      RootApart(t.l);
      assert Nodes(t.l) <= PathNodes(cs);
      LeftKept(m, m', root', c, t, cs, k, ts);
    }
    SwapLinked(m1, m', root, root', cs, Root(ts.r), k, base, ts.n, e);
  }

  lemma {:induction false} LeftKept(m: Memory, m': Memory, root': Ptr, c: Path, t: Tree, cs: Path, k: nat, ts: Tree)
    requires t.Branch? && t.l.Branch? && t.r.Branch? && ts.Branch? && !cs.Top?
    requires {t.l.n, t.r.n, ts.n} <= m.Keys && (k > 0 ==> cs.n in m) && (ts.r.Branch? ==> ts.r.n in m)
    requires Moved(m, m', root', c, t, cs, k, ts) && Linked(m, t.l, t.n) && Uniq(t.l)
    requires LeftChain(cs, k, GoRight(c, t)) && UniqPath(cs) && (k > 0 ==> TopOwner(cs, k) == t.r.n)
    requires {ts.n} !! PathNodes(cs) && Head(ts.r) !! PathNodes(cs)
    ensures Linked(m', t.l, ts.n)
  {
    ChainApart(cs, k, GoRight(c, t));
    var x := {ts.n, t.l.n} + Foot(c) + Head(ts.r) + if k == 0 then {} else {cs.n, t.r.n};
    assert Foot(c) <= PathNodes(c);
    Reparent(m, m', x, t.l, t.n, ts.n, t.l.black);
  }

  lemma {:induction false} MovedChild(m: Memory, m': Memory, root: Ptr, root': Ptr,
                                      c: Path, t: Tree, cs: Path, k: nat, ts: Tree)
    requires Successor(m, root, c, t, cs, k, ts) && !cs.Top? && ts.l.Leaf?
    requires {t.l.n, t.r.n, ts.n} <= m.Keys && (k > 0 ==> cs.n in m) && (ts.r.Branch? ==> ts.r.n in m)
    requires Moved(m, m', root', c, t, cs, k, ts)
    ensures Linked(m', Paint(ts.r), if k == 0 then ts.n else cs.n)
  {
    hide InOrder, Contents, Before, After, Fits, Swap;
    SuccessorDistinct(m, root, c, t, cs, k, ts);
    if ts.r.Branch? {
      var x := {ts.n, t.l.n} + Foot(c) + Head(ts.r) + if k == 0 then {} else {cs.n, t.r.n};
      ChainApart(cs, k, GoRight(c, t));
      assert Foot(c) <= PathNodes(c) && Nodes(ts.r) !! PathNodes(cs);
      RootApart(ts.r);
      Reparent(m, m', x, ts.r, ts.n, if k == 0 then ts.n else cs.n, true);
    }
  }

  lemma {:induction false} MovedAt(m: Memory, m': Memory, root: Ptr, root': Ptr,
                                   c: Path, t: Tree, cs: Path, k: nat, ts: Tree)
    requires Successor(m, root, c, t, cs, k, ts) && !cs.Top? && ts.l.Leaf?
    requires {t.l.n, t.r.n, ts.n} <= m.Keys && (k > 0 ==> cs.n in m) && (ts.r.Branch? ==> ts.r.n in m)
    requires Moved(m, m', root', c, t, cs, k, ts)
    ensures var d := Swap(cs, k, ts.n);
            && At(m', root', d, Paint(ts.r)) && Lost(c, t, d, Paint(ts.r))
            && !d.Top? && d.n == if k == 0 then ts.n else cs.n
  {
    hide InOrder, Contents, Before, After, Fits, Moved, Members, Nodes, PathNodes, Linked, LinkedPath, Uniq, UniqPath;
    MovedPath(m, m', root, root', c, t, cs, k, ts);
    MovedChild(m, m', root, root', c, t, cs, k, ts);
    SuccessorContents(c, t, cs, k, ts);
    SuccessorMembers(m, root, c, t, cs, k, ts);
  }

  /** After unlinking: a whole tree but for nothing, or an empty place short of one black node. */
  ghost predicate Unlinked(m: Memory, root: Ptr, c: Path, t: Tree, rebalance: Ptr) {
    if rebalance == NULL then At(m, root, c, t) && Fits(c, t)
    else Short(m, root, c, Leaf) && t.Leaf? && !c.Top? && c.n == rebalance
  }

  /** The pointers once the only child x, if any, has moved into the place of its parent. */
  lemma {:induction false} OneChildDone(m: Memory, m': Memory, root: Ptr, root': Ptr, c: Path, t: Tree, x: Tree, rebalance: Ptr)
    requires At(m, root, c, t) && Fits(c, t) && t.Branch?
    requires (t.l.Leaf? && x == t.r) || (t.r.Leaf? && x == t.l)
    requires Except(m, m', Head(x) + Foot(c)) && LinkedPath(m', root', c, Root(x))
    requires x.Branch? ==> x.n in m && m'[x.n] == m[x.n].(parent := Owner(c), black := t.black)
    requires rebalance == if x.Leaf? && t.black then Owner(c) else NULL
    ensures Unlinked(m', root', c, Paint(x), rebalance) && Lost(c, t, c, Paint(x))
    ensures Except(m, m', Members(c, t))
  {
    hide InOrder, Before, After, Contents;
    OneChildShape(c, t);
    OneChildLost(c, t, x);
    OwnerNull(m', root', c, Root(x));
    assert Linked(m, x, t.n) && Uniq(x);
    assert Foot(c) <= PathNodes(c) && Head(x) <= Nodes(x);
    if x.Branch? {
      RootApart(x);
      Reparent(m, m', Head(x) + Foot(c), x, t.n, Owner(c), true);
    }
    assert At(m', root', c, Paint(x));
  }

  lemma {:induction false} OneChildPointers(m: Memory, root: Ptr, c: Path, t: Tree)
    requires At(m, root, c, t) && t.Branch?
    ensures t.n != NULL && t.n in m && m[t.n] == Cell(Owner(c), t.black, Root(t.l), Root(t.r))
    ensures (Root(t.l) == NULL <==> t.l.Leaf?) && (Root(t.r) == NULL <==> t.r.Leaf?)
    ensures Head(t.l) + Head(t.r) <= m.Keys && (Head(t.l) + Head(t.r)) !! PathNodes(c)
    ensures UniqPath(c) && t.n !in PathNodes(c) && LinkedPath(m, root, c, t.n) && Foot(c) <= PathNodes(c)
  {
    assert Linked(m, t.l, t.n) && Linked(m, t.r, t.n);
    assert Head(t.l) <= Nodes(t.l) && Head(t.r) <= Nodes(t.r);
  }

  lemma {:induction false} SuccessorDone(m: Memory, m': Memory, root: Ptr, root': Ptr,
                                         c: Path, t: Tree, cs: Path, k: nat, ts: Tree, rebalance: Ptr)
    requires Successor(m, root, c, t, cs, k, ts) && !cs.Top? && ts.l.Leaf?
    requires {t.l.n, t.r.n, ts.n} <= m.Keys && (k > 0 ==> cs.n in m) && (ts.r.Branch? ==> ts.r.n in m)
    requires Moved(m, m', root', c, t, cs, k, ts)
    requires rebalance == if ts.r.Leaf? && ts.black then (if k == 0 then ts.n else cs.n) else NULL
    requires ts.n != NULL && (k > 0 ==> cs.n != NULL)
    ensures var d := Swap(cs, k, ts.n);
            Unlinked(m', root', d, Paint(ts.r), rebalance) && Lost(c, t, d, Paint(ts.r))
    ensures Except(m, m', Members(c, t))
  {
    hide InOrder, Before, After, Contents, Nodes, PathNodes, LinkedPath, Linked, Uniq, UniqPath, At, Lost, Fits;
    SuccessorShape(cs, k, ts);
    MovedAt(m, m', root, root', c, t, cs, k, ts);
    MovedTouches(m, m', root, root', c, t, cs, k, ts);
  }

  lemma {:induction false} MovedTouches(m: Memory, m': Memory, root: Ptr, root': Ptr,
                                        c: Path, t: Tree, cs: Path, k: nat, ts: Tree)
    requires Successor(m, root, c, t, cs, k, ts) && !cs.Top?
    requires {t.l.n, t.r.n, ts.n} <= m.Keys && (k > 0 ==> cs.n in m) && (ts.r.Branch? ==> ts.r.n in m)
    requires Moved(m, m', root', c, t, cs, k, ts)
    ensures Except(m, m', Members(c, t))
  {
    hide InOrder, Before, After, Contents, LinkedPath, Linked, Uniq, Fits;
    ChainApart(cs, k, GoRight(c, t));
    assert t.l.n in Nodes(t.l) && Foot(c) <= PathNodes(c) && Head(ts.r) <= Nodes(ts.r) && t.r.n in Nodes(t.r);
    assert Members(cs, ts) == Members(c, t);
  }

  lemma {:induction false} ErasedSorted(less: (Ptr, Ptr) -> bool, s: seq<Ptr>, s': seq<Ptr>, node: Ptr)
    requires Sorted(less, s) && Removed(s, s', node)
    ensures Sorted(less, s')
  {
    var i :| 0 <= i < |s| && s[i] == node && s' == s[..i] + s[i + 1..];
    forall a, b | 0 <= a < b < |s'| ensures less(s'[a], s'[b]) {
      var x, y := if a < i then a else a + 1, if b < i then b else b + 1;
      assert s'[a] == s[x] && s'[b] == s[y];
    }
  }

  lemma {:induction false} RemovedAround(s: seq<Ptr>, s': seq<Ptr>, a: seq<Ptr>, n: Ptr, b: seq<Ptr>)
    requires s == a + [n] + b && s' == a + b
    ensures Removed(s, s', n)
  {
    assert s[|a|] == n && s[..|a|] == a && s[|a| + 1..] == b;
  }

  lemma {:induction false} Regroup(a: seq<Ptr>, l: seq<Ptr>, n: Ptr, r: seq<Ptr>, z: seq<Ptr>)
    ensures a + (l + [n] + r) + z == (a + l) + [n] + (r + z)
    ensures a + l + r + z == (a + l) + (r + z) == a + (l + r) + z
  {
  }

  lemma {:induction false} LostRemoved(tree: Tree, c: Path, t: Tree, c': Path, t': Tree, tree': Tree)
    requires SamePlace(Top, tree, c, t) && Lost(c, t, c', t') && SamePlace(c', t', Top, tree')
    ensures Removed(InOrder(tree), InOrder(tree'), t.n) && Nodes(tree') == Nodes(tree) - {t.n}
  {
    assert Contents(Top, tree) == InOrder(tree) && Contents(Top, tree') == InOrder(tree');
    assert Members(Top, tree) == Nodes(tree) && Members(Top, tree') == Nodes(tree');
    assert Contents(c, t) == Before(c) + (InOrder(t.l) + [t.n] + InOrder(t.r)) + After(c);
    hide InOrder, Before, After, Contents, Nodes, PathNodes, Members;
    Regroup(Before(c), InOrder(t.l), t.n, InOrder(t.r), After(c));
    RemovedAround(InOrder(tree), InOrder(tree'), Before(c) + InOrder(t.l), t.n, InOrder(t.r) + After(c));
  }

  lemma {:induction false} UnlinkedStart(m: Memory, root: Ptr, c: Path, t: Tree, rebalance: Ptr)
    requires Unlinked(m, root, c, t, rebalance)
    ensures rebalance == NULL ==> At(m, root, c, t) && Fits(c, t)
    ensures rebalance != NULL ==> Short(m, root, c, Leaf) && t == Leaf && !c.Top? && c.n == rebalance
  {
  }

  lemma {:induction false} EraseTouches(m0: Memory, m1: Memory, m2: Memory, tree: Tree, c: Path, t: Tree, c': Path, t': Tree)
    requires SamePlace(Top, tree, c, t) && Lost(c, t, c', t')
    requires Except(m0, m1, Members(c, t)) && (m1 == m2 || Except(m1, m2, Members(c', t')))
    ensures Except(m0, m2, Nodes(tree))
  {
    assert Members(Top, tree) == Nodes(tree);
  }
}
