/** Insertion, erasure and search in the red-black tree, on the pointers in memory. */
module RbTree {
  import opened Numbers
  import opened RbShape

  class RbTree {
    var mem: Memory
    var root: Ptr
    ghost var tree: Tree

    /**
     A black root, no red node below a red one, equal black heights, parent and
     child pointers that agree, and keys in order.
     */
    ghost predicate Valid(less: (Ptr, Ptr) -> bool)
      reads this
    {
      StrictWeakOrder(less) && Whole(mem, root, tree) && Sorted(less, InOrder(tree))
    }

    constructor (ghost less: (Ptr, Ptr) -> bool, mem: Memory)
      requires StrictWeakOrder(less)
      ensures Valid(less) && tree == Leaf && this.mem == mem
    {
      this.mem, root, tree := mem, NULL, Leaf;
    }

    /** The order may change between calls as long as it stays the same on the nodes of the tree. */
    lemma {:induction false} OrderChanged(less: (Ptr, Ptr) -> bool, less': (Ptr, Ptr) -> bool)
      requires Valid(less) && StrictWeakOrder(less')
      requires forall x, y :: x in InOrder(tree) && y in InOrder(tree) ==> less'(x, y) == less(x, y)
      ensures Valid(less')
    {
      hide Whole, StrictWeakOrder, InOrder;
    }

    method ChangeChild(old_: Ptr, new_: Ptr, parent: Ptr, ghost c: Path)
      requires LinkedPath(mem, root, c, old_) && parent == Owner(c)
      requires UniqPath(c) && old_ !in PathNodes(c) && old_ != NULL
      modifies this`root, this`mem
      ensures LinkedPath(mem, root, c, new_) && Except(old(mem), mem, Foot(c))
    {
      ghost var m, r := mem, root;
      if parent != NULL {
        if mem[parent].left == old_ {
          mem := mem[parent := mem[parent].(left := new_)];
        } else {
          mem := mem[parent := mem[parent].(right := new_)];
        }
      } else {
        root := new_;
      }
      if !c.Top? {
        LinkedFrame(m, mem, {parent}, c.sib, c.n);
        PathFrame(m, mem, {parent}, r, c.up, c.n);
      }
    }

    method RotateSetParents(old_: Ptr, new_: Ptr, black: bool, ghost c: Path)
      requires {old_} !! {new_} !! PathNodes(c) && old_ in mem && new_ in mem && old_ != NULL
      requires LinkedPath(mem, root, c, old_) && mem[old_].parent == Owner(c) && UniqPath(c)
      modifies this`root, this`mem
      ensures LinkedPath(mem, root, c, new_) && Except(old(mem), mem, {old_, new_} + Foot(c))
      ensures mem[new_] == old(mem)[new_].(parent := Owner(c), black := old(mem)[old_].black)
      ensures mem[old_] == old(mem)[old_].(parent := new_, black := black)
    {
      ghost var m := mem;
      var parent := mem[old_].parent;
      mem := mem[new_ := mem[new_].(parent := mem[old_].parent, black := mem[old_].black)];
      mem := mem[old_ := mem[old_].(parent := new_, black := black)];
      PathFrame(m, mem, {old_, new_}, root, c, old_);
      ChangeChild(old_, new_, parent, c);
    }

    // ----- insertion -----

    /** Case 3 of the insertion fix-up when parent was the left child of gparent. */
    method InsertCase3Left(parent: Ptr, gparent: Ptr, tmp: Ptr, ghost q: Ptr,
                           ghost t: Tree, ghost x: Tree, ghost u: Tree, ghost c: Path)
      requires Apart(Branch(t, parent, false, x), gparent, u, c) && parent in mem && gparent in mem
      requires mem[parent].left == Root(t) && Linked(mem, t, parent) && parent != NULL
      requires Root(x) == tmp && Linked(mem, x, q) && IsBlack(x)
      requires mem[gparent].right == Root(u) && Linked(mem, u, gparent) && mem[gparent].black && gparent != NULL
      requires mem[gparent].parent == Owner(c) && LinkedPath(mem, root, c, gparent)
      modifies this`root, this`mem
      ensures At(mem, root, c, Branch(t, parent, true, Branch(x, gparent, false, u)))
      ensures Except(old(mem), mem, {parent, gparent} + Head(x) + Foot(c))
    {
      hide InOrder, BlackHeight, Balanced;
      ghost var m := mem;
      mem := mem[gparent := mem[gparent].(left := tmp)];
      if tmp != NULL {
        mem := mem[tmp := mem[tmp].(parent := gparent, black := true)];
      }
      mem := mem[parent := mem[parent].(right := gparent)];
      PathFrame(m, mem, {parent, gparent} + Head(x), root, c, gparent);
      RotateSetParents(gparent, parent, false, c);
      ghost var r := Branch(t, parent, true, Branch(x, gparent, false, u));
      Rotation(r, Branch(Branch(t, parent, false, x), gparent, false, u));
      ghost var k := {parent, gparent} + Head(x) + Foot(c);
      assert Except(m, mem, k);
      LinkedFrame(m, mem, k, t, parent);
      LinkedFrame(m, mem, k, u, gparent);
      if x.Branch? {
        Reparent(m, mem, k, x, q, gparent, true);
      }
      assert Linked(mem, Branch(x, gparent, false, u), parent);
      assert Linked(mem, r, Owner(c));
      assert Nodes(r) !! PathNodes(c);
    }

    /** Case 2 of the insertion fix-up: rotate node above parent, leaving gparent to case 3. */
    method InsertCase2Left(node: Ptr, parent: Ptr, ghost g: Ptr, ghost l: Tree, ghost a: Tree, ghost b: Tree)
      requires Uniq(Branch(l, parent, false, Branch(a, node, false, b))) && Uniq(Branch(a, node, false, b))
      requires Linked(mem, Branch(l, parent, false, Branch(a, node, false, b)), g)
      requires Linked(mem, Branch(a, node, false, b), parent) && IsBlack(a)
      modifies this`mem
      ensures Linked(mem, Branch(l, parent, false, a), node) && Linked(mem, b, node)
      ensures node in mem && mem[node].left == parent && mem[node].right == Root(b)
      ensures Except(old(mem), mem, {parent, node} + Head(a))
    {
      ghost var m := mem;
      var tmp := mem[node].left;
      mem := mem[parent := mem[parent].(right := tmp)];
      if tmp != NULL {
        mem := mem[tmp := mem[tmp].(parent := parent, black := true)];
      }
      mem := mem[node := mem[node].(left := parent)];
      mem := mem[parent := mem[parent].(parent := node, black := false)];
      LinkedFrame(m, mem, {parent, node} + Head(a), l, parent);
      LinkedFrame(m, mem, {parent, node} + Head(a), b, node);
      if a.Branch? {
        Reparent(m, mem, {parent, node} + Head(a), a, node, parent, true);
      }
    }

    /** Cases 2 and 3 when parent is the left child of gparent and the uncle is black. */
    method InsertRotateLeft(node: Ptr, parent: Ptr, gparent: Ptr, ghost c: Path, ghost t: Tree)
      returns (ghost t': Tree)
      requires Pending(mem, root, c, t) && t.n == node && !c.Top? && c.n == parent && !c.black
      requires !c.up.Top? && c.up.n == gparent && c.up.LeftOf? && IsBlack(c.up.sib)
      modifies this`root, this`mem
      ensures t'.Branch? && At(mem, root, c.up.up, t') && Fits(c.up.up, t') && SamePlace(c, t, c.up.up, t')
      ensures Except(old(mem), mem, Members(c, t))
    {
      hide InOrder, Before, After, Contents, Balanced, BalancedPath, Linked, LinkedPath, Uniq, UniqPath;
      ghost var m, cc, u := mem, c.up.up, c.up.sib;
      RedParentLinks(m, root, c, t);
      RedParentPointers(m, root, c, t);
      RedParentShape(c, t);
      var tmp := mem[parent].right;
      if node == tmp {
        RisenApart(m, root, c, t);
        ghost var k := {parent, node} + Head(t.l);
        InsertCase2Left(node, parent, gparent, c.sib, t.l, t.r);
        tmp := mem[node].right;
        LinkedFrame(m, mem, k, u, gparent);
        PathFrame(m, mem, k, root, cc, gparent);
        InsertCase3Left(node, gparent, tmp, node, Branch(c.sib, parent, false, t.l), t.r, u, cc);
        t' := Branch(Branch(c.sib, parent, false, t.l), node, true, Branch(t.r, gparent, false, u));
        InnerRotated(c, t, t');
      } else {
        InsertCase3Left(parent, gparent, tmp, parent, t, c.sib, u, cc);
        t' := Branch(t, parent, true, Branch(c.sib, gparent, false, u));
        OuterRotated(c, t, t');
      }
    }

    /** Case 1 of the insertion fix-up: the uncle is red, so push the red up to gparent. */
    method InsertRecolorLeft(parent: Ptr, gparent: Ptr, uncle: Ptr, ghost c: Path, ghost t: Tree)
      returns (up: Ptr, ghost t': Tree)
      requires Pending(mem, root, c, t) && !c.Top? && c.n == parent && !c.black
      requires !c.up.Top? && c.up.n == gparent && c.up.LeftOf? && IsRed(c.up.sib) && c.up.sib.n == uncle
      modifies this`mem
      ensures Pending(mem, root, c.up.up, t') && t'.Branch? && t'.n == gparent && up == Owner(c.up.up)
      ensures SamePlace(c, t, c.up.up, t') && Except(old(mem), mem, Members(c, t))
    {
      hide InOrder, Before, After, Contents, Balanced, BalancedPath, Linked, LinkedPath, Uniq, UniqPath;
      ghost var m := mem;
      RedParentLinks(m, root, c, t);
      RedParentPointers(m, root, c, t);
      mem := mem[uncle := mem[uncle].(parent := gparent, black := true)];
      mem := mem[parent := mem[parent].(parent := gparent, black := true)];
      up := mem[gparent].parent;
      mem := mem[gparent := mem[gparent].(parent := up, black := false)];
      t' := Branch(Paint(Up(c, t)), gparent, false, Paint(c.up.sib));
      RecoloredPending(m, mem, root, c, t, t');
    }

    /** Case 3 of the insertion fix-up when parent was the right child of gparent. */
    method InsertCase3Right(parent: Ptr, gparent: Ptr, tmp: Ptr, ghost q: Ptr,
                           ghost t: Tree, ghost x: Tree, ghost u: Tree, ghost c: Path)
      requires Apart(Branch(x, parent, false, t), gparent, u, c) && parent in mem && gparent in mem
      requires mem[parent].right == Root(t) && Linked(mem, t, parent) && parent != NULL
      requires Root(x) == tmp && Linked(mem, x, q) && IsBlack(x)
      requires mem[gparent].left == Root(u) && Linked(mem, u, gparent) && mem[gparent].black && gparent != NULL
      requires mem[gparent].parent == Owner(c) && LinkedPath(mem, root, c, gparent)
      modifies this`root, this`mem
      ensures At(mem, root, c, Branch(Branch(u, gparent, false, x), parent, true, t))
      ensures Except(old(mem), mem, {parent, gparent} + Head(x) + Foot(c))
    {
      hide InOrder, BlackHeight, Balanced;
      ghost var m := mem;
      mem := mem[gparent := mem[gparent].(right := tmp)];
      if tmp != NULL {
        mem := mem[tmp := mem[tmp].(parent := gparent, black := true)];
      }
      mem := mem[parent := mem[parent].(left := gparent)];
      PathFrame(m, mem, {parent, gparent} + Head(x), root, c, gparent);
      RotateSetParents(gparent, parent, false, c);
      ghost var r := Branch(Branch(u, gparent, false, x), parent, true, t);
      Rotation(Branch(u, gparent, false, Branch(x, parent, false, t)), r);
      ghost var k := {parent, gparent} + Head(x) + Foot(c);
      assert Except(m, mem, k);
      LinkedFrame(m, mem, k, t, parent);
      LinkedFrame(m, mem, k, u, gparent);
      if x.Branch? {
        Reparent(m, mem, k, x, q, gparent, true);
      }
      assert Linked(mem, Branch(u, gparent, false, x), parent);
      assert Linked(mem, r, Owner(c));
      assert Nodes(r) !! PathNodes(c);
    }

    /** Case 2 of the insertion fix-up: rotate node above parent, leaving gparent to case 3. */
    method InsertCase2Right(node: Ptr, parent: Ptr, ghost g: Ptr, ghost l: Tree, ghost a: Tree, ghost b: Tree)
      requires Uniq(Branch(Branch(b, node, false, a), parent, false, l)) && Uniq(Branch(b, node, false, a))
      requires Linked(mem, Branch(Branch(b, node, false, a), parent, false, l), g)
      requires Linked(mem, Branch(b, node, false, a), parent) && IsBlack(a)
      modifies this`mem
      ensures Linked(mem, Branch(a, parent, false, l), node) && Linked(mem, b, node)
      ensures node in mem && mem[node].right == parent && mem[node].left == Root(b)
      ensures Except(old(mem), mem, {parent, node} + Head(a))
    {
      ghost var m := mem;
      var tmp := mem[node].right;
      mem := mem[parent := mem[parent].(left := tmp)];
      if tmp != NULL {
        mem := mem[tmp := mem[tmp].(parent := parent, black := true)];
      }
      mem := mem[node := mem[node].(right := parent)];
      mem := mem[parent := mem[parent].(parent := node, black := false)];
      LinkedFrame(m, mem, {parent, node} + Head(a), l, parent);
      LinkedFrame(m, mem, {parent, node} + Head(a), b, node);
      if a.Branch? {
        Reparent(m, mem, {parent, node} + Head(a), a, node, parent, true);
      }
    }

    /** Cases 2 and 3 when parent is the right child of gparent and the uncle is black. */
    method InsertRotateRight(node: Ptr, parent: Ptr, gparent: Ptr, ghost c: Path, ghost t: Tree)
      returns (ghost t': Tree)
      requires Pending(mem, root, c, t) && t.n == node && !c.Top? && c.n == parent && !c.black
      requires !c.up.Top? && c.up.n == gparent && c.up.RightOf? && IsBlack(c.up.sib)
      modifies this`root, this`mem
      ensures t'.Branch? && At(mem, root, c.up.up, t') && Fits(c.up.up, t') && SamePlace(c, t, c.up.up, t')
      ensures Except(old(mem), mem, Members(c, t))
    {
      hide InOrder, Before, After, Contents, Balanced, BalancedPath, Linked, LinkedPath, Uniq, UniqPath;
      ghost var m, cc, u := mem, c.up.up, c.up.sib;
      RedParentLinks(m, root, c, t);
      RedParentPointers(m, root, c, t);
      RedParentShape(c, t);
      var tmp := mem[parent].left;
      if node == tmp {
        RisenApart(m, root, c, t);
        ghost var k := {parent, node} + Head(t.r);
        InsertCase2Right(node, parent, gparent, c.sib, t.r, t.l);
        tmp := mem[node].left;
        LinkedFrame(m, mem, k, u, gparent);
        PathFrame(m, mem, k, root, cc, gparent);
        InsertCase3Right(node, gparent, tmp, node, Branch(t.r, parent, false, c.sib), t.l, u, cc);
        t' := Branch(Branch(u, gparent, false, t.l), node, true, Branch(t.r, parent, false, c.sib));
        InnerRotated(c, t, t');
      } else {
        InsertCase3Right(parent, gparent, tmp, parent, t, c.sib, u, cc);
        t' := Branch(Branch(u, gparent, false, c.sib), parent, true, t);
        OuterRotated(c, t, t');
      }
    }

    /** Case 1 of the insertion fix-up: the uncle is red, so push the red up to gparent. */
    method InsertRecolorRight(parent: Ptr, gparent: Ptr, uncle: Ptr, ghost c: Path, ghost t: Tree)
      returns (up: Ptr, ghost t': Tree)
      requires Pending(mem, root, c, t) && !c.Top? && c.n == parent && !c.black
      requires !c.up.Top? && c.up.n == gparent && c.up.RightOf? && IsRed(c.up.sib) && c.up.sib.n == uncle
      modifies this`mem
      ensures Pending(mem, root, c.up.up, t') && t'.Branch? && t'.n == gparent && up == Owner(c.up.up)
      ensures SamePlace(c, t, c.up.up, t') && Except(old(mem), mem, Members(c, t))
    {
      hide InOrder, Before, After, Contents, Balanced, BalancedPath, Linked, LinkedPath, Uniq, UniqPath;
      ghost var m := mem;
      RedParentLinks(m, root, c, t);
      RedParentPointers(m, root, c, t);
      mem := mem[uncle := mem[uncle].(parent := gparent, black := true)];
      mem := mem[parent := mem[parent].(parent := gparent, black := true)];
      up := mem[gparent].parent;
      mem := mem[gparent := mem[gparent].(parent := up, black := false)];
      t' := Branch(Paint(c.up.sib), gparent, false, Paint(Up(c, t)));
      RecoloredPending(m, mem, root, c, t, t');
    }

    /**
     One turn of the fix-up loop below a red parent: recolour and move up to the
     grandparent, or rotate and finish.
     */
    method InsertRedParent(node: Ptr, parent: Ptr, ghost c: Path, ghost t: Tree)
      returns (again: bool, node': Ptr, parent': Ptr, ghost c': Path, ghost t': Tree)
      requires Pending(mem, root, c, t) && t.n == node && !c.Top? && c.n == parent && !c.black
      modifies this`root, this`mem
      ensures !c.up.Top? && c' == c.up.up && t'.Branch? && SamePlace(c, t, c', t')
      ensures again ==> Pending(mem, root, c', t') && t'.n == node' && parent' == Owner(c')
      ensures !again ==> At(mem, root, c', t') && Fits(c', t')
      ensures Except(old(mem), mem, Members(c, t))
    {
      hide Pending, At, Fits, SamePlace, Except, Members;
      PendingPointers(mem, root, c, t);
      RedParentPointers(mem, root, c, t);
      node', parent', c' := node, parent, c.up.up;
      var gparent := mem[parent].parent;
      var tmp := mem[gparent].right;
      if parent != tmp {
        again := tmp != NULL && !mem[tmp].black;
        if again {
          parent', t' := InsertRecolorLeft(parent, gparent, tmp, c, t);
          node' := gparent;
        } else {
          t' := InsertRotateLeft(node, parent, gparent, c, t);
        }
      } else {
        tmp := mem[gparent].left;
        again := tmp != NULL && !mem[tmp].black;
        if again {
          parent', t' := InsertRecolorRight(parent, gparent, tmp, c, t);
          node' := gparent;
        } else {
          t' := InsertRotateRight(node, parent, gparent, c, t);
        }
      }
    }

    /** Restores colour balance upward from a red node that has just been linked in. */
    method InsertFix(node0: Ptr, ghost c0: Path, ghost t0: Tree)
      requires Pending(mem, root, c0, t0) && t0.n == node0
      modifies this
      ensures Whole(mem, root, tree) && SamePlace(c0, t0, Top, tree)
      ensures Except(old(mem), mem, Members(c0, t0))
    {
      hide Pending, At, Fits, Whole, SamePlace, Contents, Members, Except, Plug;
      PendingPointers(mem, root, c0, t0);
      var node, parent := node0, mem[node0].parent;
      ghost var c, t := c0, t0;
      PlaceRefl(c, t, mem);
      while true
        invariant Pending(mem, root, c, t) && t.Branch? && t.n == node && parent == Owner(c)
        invariant SamePlace(c0, t0, c, t)
        invariant Except(old(mem), mem, Members(c0, t0))
        decreases c
      {
        PendingPointers(mem, root, c, t);
        ghost var m, c1, t1 := mem, c, t;
        if parent == NULL {
          mem := mem[node := mem[node].(parent := NULL, black := true)];
          PaintedRoot(m, root, t, mem);
          root := node;
          tree := t.(black := true);
          Onward(old(mem), m, mem, c0, t0, c, t, Top, tree);
          break;
        } else if mem[parent].black {
          PlugWhole(mem, root, c, t);
          tree := Plug(c, t);
          SamePlaceTrans(c0, t0, c, t, Top, tree);
          break;
        }
        var again;
        again, node, parent, c, t := InsertRedParent(node, parent, c, t);
        Onward(old(mem), m, mem, c0, t0, c1, t1, c, t);
        if !again {
          PlugWhole(mem, root, c, t);
          tree := Plug(c, t);
          SamePlaceTrans(c0, t0, c, t, Top, tree);
          break;
        }
      }
    }

    /**
     Inserts node.  Fails exactly when an equivalent node is present, and then
     changes nothing but the links of node itself.
     */
    method Insert(node: Ptr, less: (Ptr, Ptr) -> bool) returns (r: int)
      requires Valid(less) && node != NULL && node in mem && node !in Nodes(tree)
      modifies this
      ensures Valid(less)
      ensures r == -1 <==> exists x :: x in old(InOrder(tree)) && Equivalent(less, x, node)
      ensures r == -1 ==> tree == old(tree) && root == old(root) && Except(old(mem), mem, {node})
      ensures r != -1 ==> r == 0 && Inserted(old(InOrder(tree)), InOrder(tree), node)
      ensures r != -1 ==> Nodes(tree) == old(Nodes(tree)) + {node}
      ensures Except(old(mem), mem, old(Nodes(tree)) + {node})
    {
      hide At, Fits, Pending, SamePlace, Between, Before, After, Members;
      var nw, parent := root, NULL;
      mem := mem[node := Cell(NULL, false, NULL, NULL)];
      ghost var t0, m, c, t, leaf := tree, mem, Path.Top, tree, Branch(Leaf, node, false, Leaf);
      ghost var linked := false;
      DescentStart(old(mem), mem, root, tree, less, node);
      while nw != NULL
        invariant tree == t0 && root == old(root) && SamePlace(Top, t0, c, t) && Between(less, c, node)
        invariant !linked ==> mem == m && At(m, root, c, t) && Fits(c, t) && nw == Root(t)
        invariant (nw == NULL ==> t.Leaf?) && (!linked && nw == NULL ==> c.Top?)
        invariant linked ==> t.Leaf? && nw == NULL && Pending(mem, root, c, leaf)
        invariant linked ==> Except(m, mem, Members(c, leaf))
        decreases t
      {
        parent := nw;
        Descend(m, root, c, t);
        PlaceOrder(less, t0, c, t, node);
        ghost var c1, t1 := c, t;
        if less(node, nw) {
          nw := mem[nw].left;
          c, t := GoLeft(c, t), t.l;
          SamePlaceTrans(Top, t0, c1, t1, c, t);
          if nw == NULL {
            EmptyPlace(t0, c, node);
            mem := mem[parent := mem[parent].(left := node)];
            mem := mem[node := mem[node].(parent := parent, black := false)];
            Attached(m, mem, root, c, node);
            linked := true;
          }
        } else if less(nw, node) {
          nw := mem[nw].right;
          c, t := GoRight(c, t), t.r;
          SamePlaceTrans(Top, t0, c1, t1, c, t);
          if nw == NULL {
            EmptyPlace(t0, c, node);
            mem := mem[parent := mem[parent].(right := node)];
            mem := mem[node := mem[node].(parent := parent, black := false)];
            Attached(m, mem, root, c, node);
            linked := true;
          }
        } else {
          return -1;
        }
      }
      if !linked {
        EmptyPlace(t0, c, node);
        Attached(m, mem, root, c, node);
      }
      ghost var m1 := mem;
      InsertFix(node, c, leaf);
      InsertDone(less, t0, c, node, tree);
      ExceptUnion(old(mem), m, m1, mem, Nodes(t0), node);
      return 0;
    }

    // ----- search -----

    /** Finds a node equivalent to the probe, in at most 2 log2(n + 1) steps. */
    method Lookup(node: Ptr, less: (Ptr, Ptr) -> bool) returns (r: Ptr, ghost steps: nat)
      requires Valid(less)
      ensures r != NULL ==> r in InOrder(tree) && Equivalent(less, r, node)
      ensures r == NULL ==> forall x :: x in InOrder(tree) ==> !Equivalent(less, x, node)
      ensures Pow2(steps) <= (|InOrder(tree)| + 1) * (|InOrder(tree)| + 1)
    {
      hide At, Fits, SamePlace, Between, Before, After, Members;
      var nw := root;
      ghost var c, t := Path.Top, tree;
      steps := 0;
      DescentStart(mem, mem, root, tree, less, node);
      while nw != NULL
        invariant SamePlace(Top, tree, c, t) && Between(less, c, node)
        invariant At(mem, root, c, t) && Fits(c, t) && nw == Root(t) && (nw == NULL ==> t.Leaf?)
        invariant steps + Height(t) <= Height(tree)
        decreases t
      {
        Descend(mem, root, c, t);
        PlaceOrder(less, tree, c, t, node);
        ghost var c1, t1 := c, t;
        steps := steps + 1;
        if less(node, nw) {
          c, t := GoLeft(c, t), t.l;
          nw := mem[nw].left;
        } else if less(nw, node) {
          c, t := GoRight(c, t), t.r;
          nw := mem[nw].right;
        } else {
          LogarithmicSteps(tree, steps);
          return nw, steps;
        }
        SamePlaceTrans(Top, tree, c1, t1, c, t);
      }
      LookupFails(less, tree, c, node);
      LogarithmicSteps(tree, steps);
      return NULL, steps;
    }

    /** The first node in order, or null when the tree is empty. */
    method First(ghost less: (Ptr, Ptr) -> bool) returns (r: Ptr, ghost steps: nat)
      requires Valid(less)
      ensures r == NULL <==> InOrder(tree) == []
      ensures r != NULL ==> r == InOrder(tree)[0]
      ensures Pow2(steps) <= (|InOrder(tree)| + 1) * (|InOrder(tree)| + 1)
    {
      steps := 0;
      LogarithmicSteps(tree, 0);
      var n := root;
      if n == NULL {
        return NULL, 0;
      }
      ghost var t := tree;
      while mem[n].left != NULL
        invariant t.Branch? && t.n == n && n != NULL && n in mem && Linked(mem, t, mem[n].parent)
        invariant InOrder(t)[0] == InOrder(tree)[0] && steps + Height(t) <= Height(tree)
        decreases t
      {
        n := mem[n].left;
        t := t.l;
        steps := steps + 1;
      }
      LogarithmicSteps(tree, steps);
      return n, steps;
    }

    // ----- erasure -----

    /** Case 1 of the erasure fix-up on the left: the sibling is red. */
    method EraseCase1Left(parent: Ptr, sibling: Ptr, ghost c: Path, ghost t: Tree) returns (sibling': Ptr)
      requires Short(mem, root, c, t) && c.LeftOf? && c.n == parent && IsRed(c.sib) && c.sib.n == sibling
      modifies this`root, this`mem
      ensures Short(mem, root, Case1Path(c), t) && SamePlace(c, t, Case1Path(c), t)
      ensures sibling' == Root(Case1Path(c).sib) && Case1Path(c).sib.Branch? && Case1Path(c).sib.black
      ensures Except(old(mem), mem, Members(c, t))
    {
      hide InOrder, Before, After, Contents, Balanced, BalancedPath, BlackHeight, SamePlace;
      ghost var m := mem;
      ShortPointers(m, root, c, t);
      NephewPointers(m, root, c, t);
      ShortParts(m, root, c, t);
      Case1Shape(c, t);
      var tmp1 := mem[sibling].left;
      mem := mem[parent := mem[parent].(right := tmp1)];
      mem := mem[tmp1 := mem[tmp1].(parent := parent, black := true)];
      mem := mem[sibling := mem[sibling].(left := parent)];
      PathFrame(m, mem, {parent, tmp1, sibling}, root, c.up, parent);
      RotateSetParents(parent, sibling, false, c.up);
      sibling' := tmp1;
      ghost var k := {parent, tmp1, sibling} + Foot(c.up);
      assert Except(m, mem, k);
      LinkedFrame(m, mem, k, t, parent);
      LinkedFrame(m, mem, k, c.sib.r, sibling);
      Reparent(m, mem, k, c.sib.l, sibling, parent, true);
      ghost var d := Case1Path(c);
      assert LinkedPath(mem, root, d.up, parent);
      assert LinkedPath(mem, root, d, Root(t));
      assert UniqPath(d.up);
      assert UniqPath(d);
      assert Nodes(t) !! PathNodes(d);
    }

    /** Case 2 of the erasure fix-up on the left: sibling and nephews are black. */
    method EraseCase2Left(parent: Ptr, sibling: Ptr, ghost c: Path, ghost t: Tree)
      returns (again: bool, node: Ptr, up: Ptr)
      requires Short(mem, root, c, t) && c.LeftOf? && c.n == parent
      requires c.sib.Branch? && c.sib.n == sibling && c.sib.black && IsBlack(c.sib.l) && IsBlack(c.sib.r)
      modifies this`mem
      ensures var r := Case2Tree(c, t);
              && SamePlace(c, t, c.up, r)
              && (if c.black then Short(mem, root, c.up, r) else At(mem, root, c.up, r) && Fits(c.up, r))
              && again == (c.black && !c.up.Top?) && (again ==> node == Root(r) && up == Owner(c.up))
      ensures Except(old(mem), mem, Members(c, t))
    {
      hide InOrder, Before, After, Contents, Balanced, BalancedPath, BlackHeight, SamePlace;
      ghost var m := mem;
      ShortPointers(m, root, c, t);
      ShortParts(m, root, c, t);
      Case2Shape(c, t);
      again, node, up := false, NULL, NULL;
      mem := mem[sibling := mem[sibling].(parent := parent, black := false)];
      if !mem[parent].black {
        mem := mem[parent := mem[parent].(black := true)];
      } else {
        node := parent;
        up := mem[node].parent;
        OwnerNull(m, root, c.up, parent);
        again := up != NULL;
      }
      ghost var k := {parent, sibling};
      LinkedFrame(m, mem, k, t, parent);
      Reparent(m, mem, k, c.sib, parent, parent, false);
      PathFrame(m, mem, k, root, c.up, parent);
      ghost var r := Case2Tree(c, t);
      assert Uniq(c.sib.(black := false));
      assert Uniq(r);
      assert Linked(mem, r, Owner(c.up));
      assert Nodes(r) !! PathNodes(c.up);
    }

    static lemma {:induction false} Case3ReadyLeft(m: Memory, m': Memory, root: Ptr, c: Path, t: Tree, q: Tree, far: Tree)
      requires Short(m, root, c, t) && c.LeftOf? && c.sib == Branch(q, c.sib.n, true, far) && IsRed(q) && IsBlack(far)
      requires {c.n, c.sib.n, q.n} <= m.Keys
      requires Except(m, m', {c.n, c.sib.n, q.n} + Head(q.r))
      requires m'[c.sib.n] == m[c.sib.n].(left := Root(q.r)) && m'[q.n] == m[q.n].(right := c.sib.n)
      requires m'[c.n] == m[c.n].(right := q.n)
      requires q.r.Branch? ==> q.r.n in m && m'[q.r.n] == m[q.r.n].(parent := c.sib.n, black := true)
      ensures Ready4(m', root, c, t, q.l, q.n, q.n, Branch(q.r, c.sib.n, true, far))
    {
      hide InOrder, Before, After, Contents, Balanced, BalancedPath, BlackHeight, SamePlace, Uniq, UniqPath;
      ShortPointers(m, root, c, t);
      ShortParts(m, root, c, t);
      RedNephew(m, root, c, t, q);
      NephewApart(c, t, q, far);
      var k := {c.n, c.sib.n, q.n} + Head(q.r);
      LinkedFrame(m, m', k, t, c.n);
      LinkedFrame(m, m', k, q.l, q.n);
      LinkedFrame(m, m', k, far, c.sib.n);
      PathFrame(m, m', k, root, c.up, c.n);
      if q.r.Branch? {
        RootApart(q.r);
        Reparent(m, m', k, q.r, q.n, c.sib.n, true);
      }
      Case3Apart(c, t);
    }

    /** Case 3 on the left: rotate the red near nephew q above the sibling, leaving parent to case 4. */
    method EraseCase3Left(parent: Ptr, sibling: Ptr, tmp2: Ptr, ghost c: Path, ghost t: Tree)
      requires Short(mem, root, c, t) && c.LeftOf? && c.n == parent
      requires c.sib.Branch? && c.sib.n == sibling && c.sib.black && IsRed(c.sib.l) && c.sib.l.n == tmp2
      requires IsBlack(c.sib.r)
      modifies this`mem
      ensures var q := c.sib.l;
              Ready4(mem, root, c, t, q.l, q.n, q.n, Branch(q.r, sibling, true, c.sib.r))
      ensures Except(old(mem), mem, {parent, sibling, tmp2} + Head(c.sib.l.r))
    {
      hide Short, Linked, LinkedPath, Ready4, Uniq, UniqPath, Nodes, PathNodes, Members;
      ghost var m := mem;
      ghost var q, far := c.sib.l, c.sib.r;
      ShortPointers(m, root, c, t);
      NephewPointers(m, root, c, t);
      RedNephew(m, root, c, t, q);
      NephewDistinct(m, root, c, t, q);
      var tmp1 := mem[tmp2].right;
      mem := mem[sibling := mem[sibling].(left := tmp1)];
      if tmp1 != NULL {
        mem := mem[tmp1 := mem[tmp1].(parent := sibling, black := true)];
      }
      mem := mem[tmp2 := mem[tmp2].(right := sibling)];
      mem := mem[parent := mem[parent].(right := tmp2)];
      Case3ReadyLeft(m, mem, root, c, t, q, far);
    }

    /** Case 4 on the left: the sibling rises into the place and colour of parent. */
    method EraseCase4Left(parent: Ptr, sibling: Ptr, tmp1: Ptr, ghost c: Path, ghost t: Tree,
                          ghost a: Tree, ghost p: Ptr, ghost f: Tree)
      requires Ready4(mem, root, c, t, a, p, sibling, f) && c.LeftOf? && c.n == parent && f.n == tmp1
      modifies this`root, this`mem
      ensures At(mem, root, c.up, Case4Tree(c, t, a, sibling, f))
      ensures Except(old(mem), mem, {parent, sibling, tmp1} + Head(a) + Foot(c.up))
    {
      hide InOrder, Before, After, Contents, Balanced, BalancedPath, BlackHeight, SamePlace;
      ghost var m := mem;
      var tmp2 := mem[sibling].left;
      mem := mem[parent := mem[parent].(right := tmp2)];
      if tmp2 != NULL {
        mem := mem[tmp2 := mem[tmp2].(parent := parent)];
      }
      mem := mem[sibling := mem[sibling].(left := parent)];
      mem := mem[tmp1 := mem[tmp1].(parent := sibling, black := true)];
      PathFrame(m, mem, {parent, sibling, tmp1} + Head(a), root, c.up, parent);
      RotateSetParents(parent, sibling, true, c.up);
      ghost var k := {parent, sibling, tmp1} + Head(a) + Foot(c.up);
      assert Except(m, mem, k);
      LinkedFrame(m, mem, k, t, parent);
      LinkedFrame(m, mem, k, f.l, tmp1);
      LinkedFrame(m, mem, k, f.r, tmp1);
      if a.Branch? {
        Reparent(m, mem, k, a, p, parent, a.black);
      }
      ghost var r := Case4Tree(c, t, a, sibling, f);
      assert Linked(mem, Paint(f), sibling);
      assert Linked(mem, Branch(t, parent, true, a), sibling);
      assert Linked(mem, r, Owner(c.up));
      Case4Apart(c, t, a, sibling, f);
    }

    /** One turn of the erasure fix-up loop when the short subtree is the left child of parent. */
    method EraseTurnLeft(parent: Ptr, sibling0: Ptr, ghost c: Path, ghost t: Tree)
      returns (again: bool, node: Ptr, up: Ptr, ghost t': Tree, ghost c': Path)
      requires Short(mem, root, c, t) && c.LeftOf? && c.n == parent && Root(c.sib) == sibling0
      modifies this`root, this`mem
      ensures again ==> Short(mem, root, c', t') && c' == c.up && !c'.Top? && node == Root(t') && up == c'.n
      ensures !again ==> At(mem, root, c', t') && Fits(c', t')
      ensures SamePlace(c, t, c', t') && Except(old(mem), mem, Members(c, t))
    {
      hide Short, At, Fits, SamePlace, Members, Except, Ready4, Balanced, BalancedPath, BlackHeight;
      ghost var d := c;
      var sibling := sibling0;
      ShortPointers(mem, root, c, t);
      PlaceRefl(c, t, mem);
      if !mem[sibling].black {
        sibling := EraseCase1Left(parent, sibling, c, t);
        d := Case1Path(c);
        ShortPointers(mem, root, d, t);
      }
      ghost var m := mem;
      NephewPointers(mem, root, d, t);
      var tmp1 := mem[sibling].right;
      if tmp1 == NULL || mem[tmp1].black {
        var tmp2 := mem[sibling].left;
        if tmp2 == NULL || mem[tmp2].black {
          again, node, up := EraseCase2Left(parent, sibling, d, t);
          c', t' := d.up, Case2Tree(d, t);
          if !again && d.black {
            ShortTop(mem, root, t');
          }
        } else {
          ghost var q := d.sib.l;
          ghost var f := Branch(q.r, sibling, true, d.sib.r);
          NephewDistinct(mem, root, d, t, q);
          Case3Shape(mem, root, d, t);
          ghost var k := {parent, sibling, tmp2};
          EraseCase3Left(parent, sibling, tmp2, d, t);
          tmp1 := sibling;
          sibling := tmp2;
          assert k == {parent, sibling, tmp1};
          ghost var m1 := mem;
          EraseCase4Left(parent, sibling, tmp1, d, t, q.l, q.n, f);
          again, node, up, c', t' := false, NULL, NULL, d.up, Case4Tree(d, t, q.l, sibling, f);
          Case4Touches(m, m1, mem, d, t, k, q.r, q.l);
        }
      } else {
        FarNephewReady(mem, root, d, t);
        FarShape(mem, root, d, t);
        EraseCase4Left(parent, sibling, tmp1, d, t, d.sib.l, sibling, d.sib.r);
        again, node, up, c', t' := false, NULL, NULL, d.up, Case4Tree(d, t, d.sib.l, sibling, d.sib.r);
        FarTouches(m, mem, d, t, d.sib.l, d.sib.r);
      }
      Onward(old(mem), m, mem, c, t, d, t, c', t');
    }

    /** Case 1 of the erasure fix-up on the right: the sibling is red. */
    method EraseCase1Right(parent: Ptr, sibling: Ptr, ghost c: Path, ghost t: Tree) returns (sibling': Ptr)
      requires Short(mem, root, c, t) && c.RightOf? && c.n == parent && IsRed(c.sib) && c.sib.n == sibling
      modifies this`root, this`mem
      ensures Short(mem, root, Case1Path(c), t) && SamePlace(c, t, Case1Path(c), t)
      ensures sibling' == Root(Case1Path(c).sib) && Case1Path(c).sib.Branch? && Case1Path(c).sib.black
      ensures Except(old(mem), mem, Members(c, t))
    {
      hide InOrder, Before, After, Contents, Balanced, BalancedPath, BlackHeight, SamePlace;
      ghost var m := mem;
      ShortPointers(m, root, c, t);
      NephewPointers(m, root, c, t);
      ShortParts(m, root, c, t);
      Case1Shape(c, t);
      var tmp1 := mem[sibling].right;
      mem := mem[parent := mem[parent].(left := tmp1)];
      mem := mem[tmp1 := mem[tmp1].(parent := parent, black := true)];
      mem := mem[sibling := mem[sibling].(right := parent)];
      PathFrame(m, mem, {parent, tmp1, sibling}, root, c.up, parent);
      RotateSetParents(parent, sibling, false, c.up);
      sibling' := tmp1;
      ghost var k := {parent, tmp1, sibling} + Foot(c.up);
      assert Except(m, mem, k);
      LinkedFrame(m, mem, k, t, parent);
      LinkedFrame(m, mem, k, c.sib.l, sibling);
      Reparent(m, mem, k, c.sib.r, sibling, parent, true);
      ghost var d := Case1Path(c);
      assert LinkedPath(mem, root, d.up, parent);
      assert LinkedPath(mem, root, d, Root(t));
      assert UniqPath(d.up);
      assert UniqPath(d);
      assert Nodes(t) !! PathNodes(d);
    }

    /** Case 2 of the erasure fix-up on the right: sibling and nephews are black. */
    method EraseCase2Right(parent: Ptr, sibling: Ptr, ghost c: Path, ghost t: Tree)
      returns (again: bool, node: Ptr, up: Ptr)
      requires Short(mem, root, c, t) && c.RightOf? && c.n == parent
      requires c.sib.Branch? && c.sib.n == sibling && c.sib.black && IsBlack(c.sib.l) && IsBlack(c.sib.r)
      modifies this`mem
      ensures var r := Case2Tree(c, t);
              && SamePlace(c, t, c.up, r)
              && (if c.black then Short(mem, root, c.up, r) else At(mem, root, c.up, r) && Fits(c.up, r))
              && again == (c.black && !c.up.Top?) && (again ==> node == Root(r) && up == Owner(c.up))
      ensures Except(old(mem), mem, Members(c, t))
    {
      hide InOrder, Before, After, Contents, Balanced, BalancedPath, BlackHeight, SamePlace;
      ghost var m := mem;
      ShortPointers(m, root, c, t);
      ShortParts(m, root, c, t);
      Case2Shape(c, t);
      again, node, up := false, NULL, NULL;
      mem := mem[sibling := mem[sibling].(parent := parent, black := false)];
      if !mem[parent].black {
        mem := mem[parent := mem[parent].(black := true)];
      } else {
        node := parent;
        up := mem[node].parent;
        OwnerNull(m, root, c.up, parent);
        again := up != NULL;
      }
      ghost var k := {parent, sibling};
      LinkedFrame(m, mem, k, t, parent);
      Reparent(m, mem, k, c.sib, parent, parent, false);
      PathFrame(m, mem, k, root, c.up, parent);
      ghost var r := Case2Tree(c, t);
      assert Uniq(c.sib.(black := false));
      assert Uniq(r);
      assert Linked(mem, r, Owner(c.up));
      assert Nodes(r) !! PathNodes(c.up);
    }

    static lemma {:induction false} Case3ReadyRight(m: Memory, m': Memory, root: Ptr, c: Path, t: Tree, q: Tree, far: Tree)
      requires Short(m, root, c, t) && c.RightOf? && c.sib == Branch(far, c.sib.n, true, q) && IsRed(q) && IsBlack(far)
      requires {c.n, c.sib.n, q.n} <= m.Keys
      requires Except(m, m', {c.n, c.sib.n, q.n} + Head(q.l))
      requires m'[c.sib.n] == m[c.sib.n].(right := Root(q.l)) && m'[q.n] == m[q.n].(left := c.sib.n)
      requires m'[c.n] == m[c.n].(left := q.n)
      requires q.l.Branch? ==> q.l.n in m && m'[q.l.n] == m[q.l.n].(parent := c.sib.n, black := true)
      ensures Ready4(m', root, c, t, q.r, q.n, q.n, Branch(far, c.sib.n, true, q.l))
    {
      hide InOrder, Before, After, Contents, Balanced, BalancedPath, BlackHeight, SamePlace, Uniq, UniqPath;
      ShortPointers(m, root, c, t);
      ShortParts(m, root, c, t);
      RedNephew(m, root, c, t, q);
      NephewApart(c, t, q, far);
      var k := {c.n, c.sib.n, q.n} + Head(q.l);
      LinkedFrame(m, m', k, t, c.n);
      LinkedFrame(m, m', k, q.r, q.n);
      LinkedFrame(m, m', k, far, c.sib.n);
      PathFrame(m, m', k, root, c.up, c.n);
      if q.l.Branch? {
        RootApart(q.l);
        Reparent(m, m', k, q.l, q.n, c.sib.n, true);
      }
      Case3Apart(c, t);
    }

    /** Case 3 on the right: rotate the red near nephew q above the sibling, leaving parent to case 4. */
    method EraseCase3Right(parent: Ptr, sibling: Ptr, tmp2: Ptr, ghost c: Path, ghost t: Tree)
      requires Short(mem, root, c, t) && c.RightOf? && c.n == parent
      requires c.sib.Branch? && c.sib.n == sibling && c.sib.black && IsRed(c.sib.r) && c.sib.r.n == tmp2
      requires IsBlack(c.sib.l)
      modifies this`mem
      ensures var q := c.sib.r;
              Ready4(mem, root, c, t, q.r, q.n, q.n, Branch(c.sib.l, sibling, true, q.l))
      ensures Except(old(mem), mem, {parent, sibling, tmp2} + Head(c.sib.r.l))
    {
      hide Short, Linked, LinkedPath, Ready4, Uniq, UniqPath, Nodes, PathNodes, Members;
      ghost var m := mem;
      ghost var q, far := c.sib.r, c.sib.l;
      ShortPointers(m, root, c, t);
      NephewPointers(m, root, c, t);
      RedNephew(m, root, c, t, q);
      NephewDistinct(m, root, c, t, q);
      var tmp1 := mem[tmp2].left;
      mem := mem[sibling := mem[sibling].(right := tmp1)];
      if tmp1 != NULL {
        mem := mem[tmp1 := mem[tmp1].(parent := sibling, black := true)];
      }
      mem := mem[tmp2 := mem[tmp2].(left := sibling)];
      mem := mem[parent := mem[parent].(left := tmp2)];
      Case3ReadyRight(m, mem, root, c, t, q, far);
    }

    /** Case 4 on the right: the sibling rises into the place and colour of parent. */
    method EraseCase4Right(parent: Ptr, sibling: Ptr, tmp1: Ptr, ghost c: Path, ghost t: Tree,
                          ghost a: Tree, ghost p: Ptr, ghost f: Tree)
      requires Ready4(mem, root, c, t, a, p, sibling, f) && c.RightOf? && c.n == parent && f.n == tmp1
      modifies this`root, this`mem
      ensures At(mem, root, c.up, Case4Tree(c, t, a, sibling, f))
      ensures Except(old(mem), mem, {parent, sibling, tmp1} + Head(a) + Foot(c.up))
    {
      hide InOrder, Before, After, Contents, Balanced, BalancedPath, BlackHeight, SamePlace;
      ghost var m := mem;
      var tmp2 := mem[sibling].right;
      mem := mem[parent := mem[parent].(left := tmp2)];
      if tmp2 != NULL {
        mem := mem[tmp2 := mem[tmp2].(parent := parent)];
      }
      mem := mem[sibling := mem[sibling].(right := parent)];
      mem := mem[tmp1 := mem[tmp1].(parent := sibling, black := true)];
      PathFrame(m, mem, {parent, sibling, tmp1} + Head(a), root, c.up, parent);
      RotateSetParents(parent, sibling, true, c.up);
      ghost var k := {parent, sibling, tmp1} + Head(a) + Foot(c.up);
      assert Except(m, mem, k);
      LinkedFrame(m, mem, k, t, parent);
      LinkedFrame(m, mem, k, f.l, tmp1);
      LinkedFrame(m, mem, k, f.r, tmp1);
      if a.Branch? {
        Reparent(m, mem, k, a, p, parent, a.black);
      }
      ghost var r := Case4Tree(c, t, a, sibling, f);
      assert Linked(mem, Paint(f), sibling);
      assert Linked(mem, Branch(a, parent, true, t), sibling);
      assert Linked(mem, r, Owner(c.up));
      Case4Apart(c, t, a, sibling, f);
    }

    /** One turn of the erasure fix-up loop when the short subtree is the right child of parent. */
    method EraseTurnRight(parent: Ptr, sibling0: Ptr, ghost c: Path, ghost t: Tree)
      returns (again: bool, node: Ptr, up: Ptr, ghost t': Tree, ghost c': Path)
      requires Short(mem, root, c, t) && c.RightOf? && c.n == parent && Root(c.sib) == sibling0
      modifies this`root, this`mem
      ensures again ==> Short(mem, root, c', t') && c' == c.up && !c'.Top? && node == Root(t') && up == c'.n
      ensures !again ==> At(mem, root, c', t') && Fits(c', t')
      ensures SamePlace(c, t, c', t') && Except(old(mem), mem, Members(c, t))
    {
      hide Short, At, Fits, SamePlace, Members, Except, Ready4, Balanced, BalancedPath, BlackHeight;
      ghost var d := c;
      var sibling := sibling0;
      ShortPointers(mem, root, c, t);
      PlaceRefl(c, t, mem);
      if !mem[sibling].black {
        sibling := EraseCase1Right(parent, sibling, c, t);
        d := Case1Path(c);
        ShortPointers(mem, root, d, t);
      }
      ghost var m := mem;
      NephewPointers(mem, root, d, t);
      var tmp1 := mem[sibling].left;
      if tmp1 == NULL || mem[tmp1].black {
        var tmp2 := mem[sibling].right;
        if tmp2 == NULL || mem[tmp2].black {
          again, node, up := EraseCase2Right(parent, sibling, d, t);
          c', t' := d.up, Case2Tree(d, t);
          if !again && d.black {
            ShortTop(mem, root, t');
          }
        } else {
          ghost var q := d.sib.r;
          ghost var f := Branch(d.sib.l, sibling, true, q.l);
          NephewDistinct(mem, root, d, t, q);
          Case3Shape(mem, root, d, t);
          ghost var k := {parent, sibling, tmp2};
          EraseCase3Right(parent, sibling, tmp2, d, t);
          tmp1 := sibling;
          sibling := tmp2;
          assert k == {parent, sibling, tmp1};
          ghost var m1 := mem;
          EraseCase4Right(parent, sibling, tmp1, d, t, q.r, q.n, f);
          again, node, up, c', t' := false, NULL, NULL, d.up, Case4Tree(d, t, q.r, sibling, f);
          Case4Touches(m, m1, mem, d, t, k, q.l, q.r);
        }
      } else {
        FarNephewReady(mem, root, d, t);
        FarShape(mem, root, d, t);
        EraseCase4Right(parent, sibling, tmp1, d, t, d.sib.r, sibling, d.sib.l);
        again, node, up, c', t' := false, NULL, NULL, d.up, Case4Tree(d, t, d.sib.r, sibling, d.sib.l);
        FarTouches(m, mem, d, t, d.sib.r, d.sib.l);
      }
      Onward(old(mem), m, mem, c, t, d, t, c', t');
    }

    /** Restores black heights upward from an empty place that lost a black node. */
    method EraseFix(parent0: Ptr, ghost c0: Path)
      requires Short(mem, root, c0, Leaf) && !c0.Top? && c0.n == parent0
      modifies this
      ensures Whole(mem, root, tree) && SamePlace(c0, Leaf, Top, tree)
      ensures Except(old(mem), mem, Members(c0, Leaf))
    {
      hide Short, At, Fits, Whole, SamePlace, Members, Except, Plug;
      var node, parent := NULL, parent0;
      ghost var c, t := c0, Leaf;
      PlaceRefl(c, t, mem);
      while true
        invariant Short(mem, root, c, t) && !c.Top? && c.n == parent && Root(t) == node
        invariant SamePlace(c0, Leaf, c, t) && Except(old(mem), mem, Members(c0, Leaf))
        decreases c
      {
        ShortPointers(mem, root, c, t);
        ghost var m, c1, t1 := mem, c, t;
        var again;
        var sibling := mem[parent].right;
        if node != sibling {
          again, node, parent, t, c := EraseTurnLeft(parent, sibling, c, t);
        } else {
          sibling := mem[parent].left;
          again, node, parent, t, c := EraseTurnRight(parent, sibling, c, t);
        }
        Onward(old(mem), m, mem, c0, Leaf, c1, t1, c, t);
        if !again {
          PlugWhole(mem, root, c, t);
          tree := Plug(c, t);
          SamePlaceTrans(c0, Leaf, c, t, Top, tree);
          break;
        }
      }
    }

    /** The leftmost node below child, the right child of a node with two children. */
    method FindSuccessor(child: Ptr, ghost c: Path, ghost t: Tree)
      returns (successor: Ptr, parent: Ptr, ghost cs: Path, ghost k: nat, ghost ts: Tree)
      requires At(mem, root, c, t) && Fits(c, t) && t.Branch? && t.l.Branch? && t.r.Branch? && t.r.n == child
      requires child in mem && mem[child].left != NULL
      ensures Successor(mem, root, c, t, cs, k, ts) && !cs.Top? && ts.Branch? && ts.l.Leaf? && k > 0
      ensures ts.n == successor && cs.n == parent
    {
      hide Successor, At, Fits;
      cs, ts, k := GoRight(c, t), t.r, 0;
      SuccessorStart(mem, root, c, t);
      SuccessorPointers(mem, root, c, t, cs, k, ts);
      successor, parent := child, NULL;
      var tmp := mem[child].left;
      while tmp != NULL
        invariant Successor(mem, root, c, t, cs, k, ts) && !cs.Top?
        invariant ts.Branch? && ts.n == successor && successor in mem
        invariant tmp == Root(ts.l) && (tmp == NULL <==> ts.l.Leaf?)
        invariant (tmp == NULL ==> k > 0) && (k > 0 ==> parent == cs.n)
        decreases ts
      {
        parent := successor;
        successor := tmp;
        SuccessorLeft(mem, root, c, t, cs, k, ts);
        cs, ts, k := GoLeft(cs, ts), ts.l, k + 1;
        SuccessorPointers(mem, root, c, t, cs, k, ts);
        tmp := mem[tmp].left;
      }
    }

    /** The successor takes over the left child and the place of node. */
    method TakePlace(node: Ptr, successor: Ptr, ghost m: Memory,
                     ghost c: Path, ghost t: Tree, ghost cs: Path, ghost k: nat, ghost ts: Tree)
      requires Successor(m, root, c, t, cs, k, ts) && !cs.Top? && t.n == node && ts.n == successor
      requires t.l.Branch? && t.r.Branch? && {node, t.l.n, t.r.n, successor} <= m.Keys && (k > 0 ==> cs.n in m)
      requires mem == if k == 0 then m else Lifted(m, cs.n, successor, t.r.n, Root(ts.r))
      modifies this`root, this`mem
      ensures InPlace(m, mem, root, c, t, cs, k, ts)
    {
      hide Successor, At, Fits, Nodes, PathNodes, Linked, LinkedPath, Uniq, UniqPath;
      SuccessorPointers(m, root, c, t, cs, k, ts);
      SuccessorDistinct(m, root, c, t, cs, k, ts);
      var tmp := mem[node].left;
      mem := mem[successor := mem[successor].(left := tmp)];
      mem := mem[tmp := mem[tmp].(parent := successor)];
      PathFrame(m, mem, {successor, t.l.n} + if k == 0 then {} else {cs.n, t.r.n}, root, c, node);
      ChangeChild(node, successor, mem[node].parent, c);
    }

    /** The successor takes over the colour of node, and its only child the black. */
    method TakeColour(node: Ptr, successor: Ptr, parent: Ptr, child2: Ptr, ghost m: Memory, ghost r: Ptr,
                      ghost c: Path, ghost t: Tree, ghost cs: Path, ghost k: nat, ghost ts: Tree)
      returns (rebalance: Ptr)
      requires Successor(m, r, c, t, cs, k, ts) && !cs.Top? && ts.l.Leaf? && t.n == node && ts.n == successor
      requires t.l.Branch? && t.r.Branch? && {node, t.l.n, t.r.n, successor} <= m.Keys && (k > 0 ==> cs.n in m)
      requires InPlace(m, mem, root, c, t, cs, k, ts)
      requires child2 == Root(ts.r) && parent == if k == 0 then successor else cs.n
      modifies this`mem
      ensures Unlinked(mem, root, Swap(cs, k, ts.n), Paint(ts.r), rebalance)
      ensures Lost(c, t, Swap(cs, k, ts.n), Paint(ts.r)) && Except(m, mem, Members(c, t))
    {
      hide Successor, At, Fits, Lost, Unlinked, Nodes, PathNodes, Linked, LinkedPath, Uniq, UniqPath, Members, Swap;
      SuccessorPointers(m, r, c, t, cs, k, ts);
      SuccessorDistinct(m, r, c, t, cs, k, ts);
      ghost var m1 := mem;
      var black2 := mem[successor].black;
      mem := mem[successor := mem[successor].(parent := mem[node].parent, black := mem[node].black)];
      if child2 != NULL {
        mem := mem[child2 := mem[child2].(parent := parent, black := true)];
        rebalance := NULL;
      } else {
        rebalance := if black2 then parent else NULL;
      }
      PathFrame(m1, mem, {successor} + Head(ts.r), root, c, successor);
      SuccessorDone(m, mem, r, root, c, t, cs, k, ts, rebalance);
    }

    /** Unlinks a node that has two children by moving its successor into its place. */
    method UnlinkSuccessor(node: Ptr, child: Ptr, ghost c: Path, ghost t: Tree)
      returns (rebalance: Ptr, ghost c': Path, ghost t': Tree)
      requires At(mem, root, c, t) && Fits(c, t) && t.Branch? && t.n == node
      requires t.l.Branch? && t.r.Branch? && t.r.n == child
      modifies this`root, this`mem
      ensures Unlinked(mem, root, c', t', rebalance) && Lost(c, t, c', t')
      ensures Except(old(mem), mem, Members(c, t))
    {
      hide Successor, At, Fits, Lost, Unlinked, InPlace, Members, Swap, Except;
      ghost var m, r := mem, root;
      ghost var cs, ts, k := GoRight(c, t), t.r, 0;
      SuccessorStart(m, r, c, t);
      SuccessorPointers(m, r, c, t, cs, k, ts);
      var successor, parent, child2 := child, NULL, NULL;
      if mem[child].left == NULL {
        parent := successor;
        child2 := mem[successor].right;
      } else {
        successor, parent, cs, k, ts := FindSuccessor(child, c, t);
        SuccessorPointers(m, r, c, t, cs, k, ts);
        child2 := mem[successor].right;
        mem := mem[parent := mem[parent].(left := child2)];
        mem := mem[successor := mem[successor].(right := child)];
        mem := mem[child := mem[child].(parent := successor)];
      }
      TakePlace(node, successor, m, c, t, cs, k, ts);
      rebalance := TakeColour(node, successor, parent, child2, m, r, c, t, cs, k, ts);
      c', t' := Swap(cs, k, ts.n), Paint(ts.r);
    }

    /** Unlinks node, and says where a black node is now missing. */
    method Unlink(node: Ptr, ghost c: Path, ghost t: Tree)
      returns (rebalance: Ptr, ghost c': Path, ghost t': Tree)
      requires At(mem, root, c, t) && Fits(c, t) && t.Branch? && t.n == node
      modifies this`root, this`mem
      ensures Unlinked(mem, root, c', t', rebalance) && Lost(c, t, c', t')
      ensures Except(old(mem), mem, Members(c, t))
    {
      hide At, Fits, Lost, Unlinked, Nodes, PathNodes, Linked, LinkedPath, Uniq, UniqPath, Members;
      ghost var m, r := mem, root;
      OneChildPointers(m, r, c, t);
      c', t' := c, Paint(if t.l.Leaf? then t.r else t.l);
      var child, tmp := mem[node].right, mem[node].left;
      if tmp == NULL {
        var parent, black := mem[node].parent, mem[node].black;
        ChangeChild(node, child, parent, c);
        ghost var m1 := mem;
        if child != NULL {
          mem := mem[child := mem[child].(parent := parent, black := black)];
          rebalance := NULL;
        } else {
          rebalance := if black then parent else NULL;
        }
        PathFrame(m1, mem, Head(t.r), root, c, child);
        OneChildDone(m, mem, r, root, c, t, t.r, rebalance);
      } else if child == NULL {
        mem := mem[tmp := mem[tmp].(parent := mem[node].parent, black := mem[node].black)];
        PathFrame(m, mem, Head(t.l), root, c, node);
        ChangeChild(node, tmp, mem[node].parent, c);
        rebalance := NULL;
        OneChildDone(m, mem, r, root, c, t, t.l, rebalance);
      } else {
        rebalance, c', t' := UnlinkSuccessor(node, child, c, t);
      }
    }

    /** Takes node out of the tree; the others keep their order and the tree its balance. */
    method Erase(node: Ptr, ghost less: (Ptr, Ptr) -> bool)
      requires Valid(less) && node in Nodes(tree)
      modifies this
      ensures Valid(less) && Removed(old(InOrder(tree)), InOrder(tree), node)
      ensures Nodes(tree) == old(Nodes(tree)) - {node} && Except(old(mem), mem, old(Nodes(tree)))
    {
      hide At, Fits, Lost, Unlinked, Short, Members, SamePlace, Plug, Removed;
      ghost var t0 := tree;
      DescentStart(mem, mem, root, tree, less, node);
      ghost var c, t := Locate(mem, root, Top, tree, node);
      var rebalance;
      ghost var c', t';
      rebalance, c', t' := Unlink(node, c, t);
      ghost var m1 := mem;
      UnlinkedStart(mem, root, c', t', rebalance);
      if rebalance != NULL {
        EraseFix(rebalance, c');
      } else {
        PlugWhole(mem, root, c', t');
        tree := Plug(c', t');
      }
      LostRemoved(t0, c, t, c', t', tree);
      ErasedSorted(less, InOrder(t0), InOrder(tree), node);
      EraseTouches(old(mem), m1, mem, t0, c, t, c', t');
    }
  }
}
