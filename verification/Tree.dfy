/** The red-black tree of Tree.c with parent pointers, one index. */
module Tree {
  import opened Sequences
  import opened TreeShape
  import opened TreeNodes
  import opened TreeOrder

  class Tree {
    var root: Node?
    var count: int
    var size: int
    ghost var shape: Shape<Node>
    ghost var repr: set<Node>

    /** The subtree `t` and the path `p` make up the whole tree in memory. */
    ghost predicate At(t: Shape<Node>, p: Path<Node>)
      reads this`root, this`repr, Nodes(t), PathNodes(p)
    {
      Nodes(t) + PathNodes(p) <= repr && ApartAll(t, p) && Linked(t, ParentOf(p)) && LinkedPath(p, RootOf(t), root)
    }

    /** Gives the root of a subtree, if there is one, a new parent. */
    method Reparent(n: Node?, parent: Node?, ghost t: Shape<Node>, ghost was: Node?)
      requires n == RootOf(t) && Linked(t, was) && Apart(t) && Nodes(t) <= repr
      modifies if n == null then {} else {n}
      ensures Linked(t, parent)
    {
      if n != null {
        n.parent := parent;
        assert Linked(t.left, n) && Linked(t.right, n);
      }
    }

    /** Hangs another subtree in the place of `curnode`. */
    method Hang(curnode: Node, other: Node?, direction: bool, ghost p: Path<Node>)
      requires PathNodes(p) <= repr && LinkedPath(p, curnode, root) && ApartPath(p) && curnode !in PathNodes(p)
          && curnode.parent == ParentOf(p)
      modifies this`root, if p.Top? then {} else {p.cell.node}
      ensures LinkedPath(p, other, root)
      ensures p.Step? ==> root == old(root)
    {
      if curnode.parent == null {
        root := other;
      } else {
        RootIsNode(p.sib);
        assert Linked(p.sib, p.cell.node) && LinkedPath(p.up, p.cell.node, root);
        hide Linked, LinkedPath;
        if curnode == curnode.parent.Child(direction) {
          curnode.parent.SetChild(direction, other);
        } else {
          curnode.parent.SetChild(!direction, other);
        }
        assert Linked(p.sib, p.cell.node);
        assert LinkedPath(p.up, p.cell.node, root);
      }
    }

    method Rotate(curnode: Node, direction: bool, ghost t: Shape<Node>, ghost p: Path<Node>)
      requires At(t, p) && t.Bin? && Kid(t, !direction).Bin? && curnode == t.cell.node
      modifies this`root, Nodes(t), PathNodes(p)
      ensures At(TreeShape.Rotate(t, direction), p)
    {
      ghost var o := Kid(t, !direction);
      ghost var near, mid, far := Kid(t, direction), Kid(o, direction), Kid(o, !direction);
      RotateParts(t, direction, p, root, repr);
      hide At, Linked, Nodes, Apart, LinkedPath, PathNodes, ApartPath, TreeShape.Rotate, Kid, HoldsMake;
      var other := curnode.Child(!direction);
      TurnLinks(curnode, other, direction, near, mid, far, t.cell, o.cell, p);
      RotateJoins(t, direction, p, root, repr);
    }

    /** The pointer assignments of the rotation, on the three subtrees it moves. */
    method TurnLinks(curnode: Node, other: Node, direction: bool,
                     ghost near: Shape<Node>, ghost mid: Shape<Node>, ghost far: Shape<Node>,
                     ghost c: Cell<Node>, ghost d: Cell<Node>, ghost p: Path<Node>)
      requires c.node == curnode && d.node == other && curnode != other && ApartPath(p) && Apart(mid)
      requires HoldsMake(direction, c, ParentOf(p), RootOf(near), other)
      requires HoldsMake(direction, d, curnode, RootOf(mid), RootOf(far))
      requires Linked(near, curnode) && Linked(mid, other) && Linked(far, other) && LinkedPath(p, curnode, root)
      requires Nodes(near) <= repr && Nodes(mid) <= repr && Nodes(far) <= repr && PathNodes(p) <= repr
      requires OffLimits(curnode, near, mid, far, p) && OffLimits(other, near, mid, far, p)
      requires RootOf(mid) !in Nodes(near) && RootOf(mid) !in Nodes(far) && RootOf(mid) !in PathNodes(p)
      requires ParentOf(p) !in Nodes(near) && ParentOf(p) !in Nodes(mid) && ParentOf(p) !in Nodes(far)
      modifies this`root, curnode, other
      modifies if RootOf(mid) == null then {} else {RootOf(mid)}
      modifies if p.Top? then {} else {p.cell.node}
      ensures HoldsMake(direction, d, ParentOf(p), curnode, RootOf(far))
      ensures HoldsMake(direction, c, other, RootOf(near), RootOf(mid))
      ensures Linked(near, curnode) && Linked(mid, curnode) && Linked(far, other) && LinkedPath(p, other, root)
    {
      ParentIsNode(p);
      hide Linked, Nodes, Apart, LinkedPath, PathNodes, ApartPath;
      LowerLinks(curnode, other, direction, near, mid, far, c, d, p);
      UpperLinks(curnode, other, direction, near, mid, far, c, d, p);
    }

    /** The second half: the other node takes the place of the first. */
    method UpperLinks(curnode: Node, other: Node, direction: bool,
                      ghost near: Shape<Node>, ghost mid: Shape<Node>, ghost far: Shape<Node>,
                      ghost c: Cell<Node>, ghost d: Cell<Node>, ghost p: Path<Node>)
      requires c.node == curnode && d.node == other && curnode != other && ApartPath(p)
      requires HoldsMake(direction, d, ParentOf(p), RootOf(mid), RootOf(far))
      requires HoldsMake(direction, c, ParentOf(p), RootOf(near), RootOf(mid))
      requires Linked(near, curnode) && Linked(mid, curnode) && Linked(far, other) && LinkedPath(p, curnode, root)
      requires Nodes(near) <= repr && Nodes(mid) <= repr && Nodes(far) <= repr && PathNodes(p) <= repr
      requires OffLimits(curnode, near, mid, far, p) && OffLimits(other, near, mid, far, p)
      requires ParentOf(p) !in Nodes(near) && ParentOf(p) !in Nodes(mid) && ParentOf(p) !in Nodes(far)
      modifies this`root, curnode, other, if p.Top? then {} else {p.cell.node}
      ensures HoldsMake(direction, d, ParentOf(p), curnode, RootOf(far))
      ensures HoldsMake(direction, c, other, RootOf(near), RootOf(mid))
      ensures Linked(near, curnode) && Linked(mid, curnode) && Linked(far, other) && LinkedPath(p, other, root)
    {
      ParentIsNode(p);
      hide Linked, Nodes, Apart, LinkedPath, PathNodes, ApartPath;
      Hang(curnode, other, direction, p);
      other.SetChild(direction, curnode);
      curnode.parent := other;
    }

    /** The first half: the middle subtree changes sides. */
    method LowerLinks(curnode: Node, other: Node, direction: bool,
                      ghost near: Shape<Node>, ghost mid: Shape<Node>, ghost far: Shape<Node>,
                      ghost c: Cell<Node>, ghost d: Cell<Node>, ghost p: Path<Node>)
      requires c.node == curnode && d.node == other && curnode != other && Apart(mid)
      requires HoldsMake(direction, c, ParentOf(p), RootOf(near), other)
      requires HoldsMake(direction, d, curnode, RootOf(mid), RootOf(far))
      requires Linked(near, curnode) && Linked(mid, other) && Linked(far, other) && LinkedPath(p, curnode, root)
      requires Nodes(near) <= repr && Nodes(mid) <= repr && Nodes(far) <= repr && PathNodes(p) <= repr
      requires OffLimits(curnode, near, mid, far, p) && OffLimits(other, near, mid, far, p)
      requires RootOf(mid) !in Nodes(near) && RootOf(mid) !in Nodes(far) && RootOf(mid) !in PathNodes(p)
      modifies curnode, other, if RootOf(mid) == null then {} else {RootOf(mid)}
      ensures HoldsMake(direction, d, ParentOf(p), RootOf(mid), RootOf(far))
      ensures HoldsMake(direction, c, ParentOf(p), RootOf(near), RootOf(mid))
      ensures Linked(near, curnode) && Linked(mid, curnode) && Linked(far, other) && LinkedPath(p, curnode, root)
    {
      RootIsNode(mid);
      hide Linked, Nodes, Apart, LinkedPath, PathNodes, ApartPath;
      curnode.SetChild(!direction, other.Child(direction));
      Reparent(other.Child(direction), curnode, mid, other);
      other.parent := curnode.parent;
    }

    /** Moving the focus one level changes nothing in memory. */
    lemma Zip(t: Shape<Node>, p: Path<Node>)
      requires p.Step?
      ensures At(t, p) <==> At(Make(p.dir, t, p.cell, p.sib), p.up)
    {
      MakeNodes(p.dir, t, p.cell, p.sib);
      MakeLinked(p.dir, t, p.cell, p.sib, ParentOf(p.up));
    }

    lemma Focus(t: Shape<Node>, p: Path<Node>, dir: bool)
      requires t.Bin?
      ensures At(t, p) <==> At(Kid(t, dir), Step(dir, t.cell, Kid(t, !dir), p))
    {
      IsMake(t, dir);
      Zip(Kid(t, dir), Step(dir, t.cell, Kid(t, !dir), p));
    }

    /** What the pointers of the node in hand and of its parent say. */
    lemma Pointers(t: Shape<Node>, p: Path<Node>)
      requires At(t, p)
      ensures t.Bin? ==> t.cell.node in repr && Holds(t.cell, ParentOf(p), RootOf(t.left), RootOf(t.right))
      ensures p.Step? ==>
          p.cell.node in repr && HoldsStep(p, RootOf(t)) && (RootOf(p.sib) != null ==> RootOf(p.sib) in repr)
      ensures p.Step? ==>
          (t.Bin? ==> t.cell.node != p.cell.node) && (RootOf(p.sib) != null ==> RootOf(p.sib) != RootOf(t))
      ensures p.Top? ==> root == RootOf(t)
      ensures IsRedNode(RootOf(t)) == IsRed(t) && (p.Step? ==> IsRedNode(RootOf(p.sib)) == IsRed(p.sib))
    {
      RootIsNode(t);
      if p.Step? { RootIsNode(p.sib); }
    }

    method SetRed(n: Node, red: bool, ghost t: Shape<Node>, ghost p: Path<Node>)
      requires At(t, p) && t.Bin? && n == t.cell.node
      modifies n`red
      ensures At(Paint(t, red), p)
    {
      PaintNodes(t, red);
      assert Linked(t.left, n) && Linked(t.right, n);
      assert n !in Nodes(t.left) && n !in Nodes(t.right) && n !in PathNodes(p);
      assert Nodes(t.left) <= repr && Nodes(t.right) <= repr && PathNodes(p) <= repr;
      n.red := red;
      assert Linked(t.left, n) && Linked(t.right, n);
    }

    /** The uncle is red: parent and uncle turn black, the grandparent turns red. */
    method RecolourUp(curnode: Node, uncle: Node, ghost t: Shape<Node>, ghost p: Path<Node>) returns (next: Node)
      requires At(t, p) && t.Bin? && curnode == t.cell.node && AddLoops(p) && IsRed(p.up.sib)
          && uncle == p.up.sib.cell.node
      modifies this`root, repr
      ensures At(Recolour(t, p), p.up.up) && next == Recolour(t, p).cell.node
    {
      ghost var d, g := p.up.dir, p.up;
      ghost var parent := Make(p.dir, t, p.cell, p.sib);
      ghost var parent' := Paint(parent, false);
      ghost var down := Step(!d, g.cell, parent', g.up);
      ghost var top := Make(d, parent', g.cell, Paint(g.sib, false));
      hide At, Linked, Nodes, Apart, LinkedPath, PathNodes, ApartPath, Holds;
      Pointers(t, p);
      Zip(t, p);
      Pointers(parent, g);
      var up := curnode.parent;
      next := up.parent;
      SetRed(up, false, parent, g);
      Zip(parent', g);
      assert Make(!d, g.sib, g.cell, parent') == Make(d, parent', g.cell, g.sib);
      Zip(g.sib, down);
      SetRed(uncle, false, g.sib, down);
      Zip(Paint(g.sib, false), down);
      assert Make(!d, Paint(g.sib, false), g.cell, parent') == top;
      SetRed(next, true, top, g.up);
      assert Paint(top, true) == Recolour(t, p);
    }

    /** The uncle is black: an inner node is first rotated outside, then the grandparent is rotated down. */
    method RestructureAt(node: Node, which: bool, ghost t: Shape<Node>, ghost p: Path<Node>)
      returns (next: Node, ghost t': Shape<Node>, ghost p': Path<Node>)
      requires At(t, p) && t.Bin? && node == t.cell.node && AddLoops(p) && which == !p.up.dir
      modifies this`root, repr
      ensures At(t', p') && t'.Bin? && next == t'.cell.node
      ensures !ParentRed(p') && Plug(t', p') == Plug(Restructure(t, p), p.up.up) && Depth(p') < Depth(p)
    {
      ghost var parent := Make(p.dir, t, p.cell, p.sib);
      ghost var top := if p.dir == which then TreeShape.Rotate(parent, !which) else parent;
      ghost var g := p.up;
      hide At, Linked, Nodes, Apart, LinkedPath, PathNodes, ApartPath, Holds;
      var curnode := node;
      Pointers(t, p);
      Zip(t, p);
      if curnode == curnode.parent.Child(which) {
        assert p.dir == which;
        curnode := curnode.parent;
        Rotate(curnode, !which, parent, g);
      }
      assert At(top, g) && Kid(top, !which).Bin? && curnode == Kid(top, !which).cell.node;
      LiftParent(curnode, which, top, g);
      ghost var r := TreeShape.Rotate(Paint(Make(g.dir, Paint(top, false), g.cell, g.sib), true), which);
      assert r == Restructure(t, p);
      next := curnode;
      t', p' := Kid(r, !which), Step(!which, r.cell, Kid(r, which), g.up);
      Focus(r, g.up, !which);
      IsMake(r, !which);
    }

    /** The parent becomes black and takes the grandparent's place, which becomes red. */
    method LiftParent(curnode: Node, which: bool, ghost top: Shape<Node>, ghost g: Path<Node>)
      requires At(top, g) && top.Bin? && g.Step? && which == !g.dir
      requires Kid(top, !which).Bin? && curnode == Kid(top, !which).cell.node
      modifies this`root, repr
      ensures At(TreeShape.Rotate(Paint(Make(g.dir, Paint(top, false), g.cell, g.sib), true), which), g.up)
    {
      hide At, Linked, Nodes, Apart, LinkedPath, PathNodes, ApartPath, Holds;
      Focus(top, g, !which);
      Pointers(Kid(top, !which), Step(!which, top.cell, Kid(top, which), g));
      SetRed(curnode.parent, false, top, g);
      Focus(Paint(top, false), g, !which);
      Pointers(Kid(top, !which), Step(!which, top.cell.(red := false), Kid(top, which), g));
      Pointers(Paint(top, false), g);
      ghost var grand := Make(g.dir, Paint(top, false), g.cell, g.sib);
      Zip(Paint(top, false), g);
      SetRed(curnode.parent.parent, true, grand, g.up);
      Focus(Paint(grand, true), g.up, !which);
      Focus(Paint(top, false), Step(!which, g.cell.(red := true), g.sib, g.up), !which);
      Pointers(Kid(top, !which), Step(!which, top.cell.(red := false), Kid(top, which),
          Step(!which, g.cell.(red := true), g.sib, g.up)));
      Pointers(Paint(top, false), Step(!which, g.cell.(red := true), g.sib, g.up));
      Rotate(curnode.parent.parent, which, Paint(grand, true), g.up);
    }

    method BalanceSub(curnode: Node, which: bool, ghost t: Shape<Node>, ghost p: Path<Node>)
      returns (next: Node, ghost t': Shape<Node>, ghost p': Path<Node>)
      requires At(t, p) && t.Bin? && curnode == t.cell.node && AddLoops(p) && which == !p.up.dir
      modifies this`root, repr
      ensures At(t', p') && t'.Bin? && next == t'.cell.node && FixAdd(t', p') == FixAdd(t, p)
      ensures Depth(p') < Depth(p)
    {
      hide At, Restructure, Plug, Recolour;
      Zip(t, p);
      Zip(Make(p.dir, t, p.cell, p.sib), p.up);
      Pointers(t, p);
      Pointers(Make(p.dir, t, p.cell, p.sib), p.up);
      var uncle := curnode.parent.parent.Child(which);
      if IsRedNode(uncle) {
        next := RecolourUp(curnode, uncle, t, p);
        t', p' := Recolour(t, p), p.up.up;
        RecolourIsBin(t, p);
      } else {
        next, t', p' := RestructureAt(curnode, which, t, p);
      }
    }

    /** The loop that restores the balance after an addition, and the final blackening of the root. */
    method BalanceAfterAdd(node: Node, ghost t0: Shape<Node>, ghost p0: Path<Node>)
      requires At(t0, p0) && t0.Bin? && node == t0.cell.node
      modifies this`root, repr
      ensures At(AfterAdd(t0, p0), Top)
    {
      var curnode := node;
      ghost var t, p := t0, p0;
      ParentPointers(t, p);
      while IsRedNode(curnode.parent) && curnode.parent.parent != null
        invariant At(t, p) && t.Bin? && curnode == t.cell.node
        invariant FixAdd(t, p) == FixAdd(t0, p0)
        invariant IsRedNode(curnode.parent) == ParentRed(p)
        invariant curnode.parent != null ==> (curnode.parent.parent != null <==> p.Step? && p.up.Step?)
        decreases Depth(p)
      {
        hide At, FixAdd;
        SideOfParent(t, p);
        if curnode.parent == curnode.parent.parent.Child(LEFT) {
          curnode, t, p := BalanceSub(curnode, RIGHT, t, p);
        } else {
          curnode, t, p := BalanceSub(curnode, LEFT, t, p);
        }
        ParentPointers(t, p);
      }
      hide At;
      assert FixAdd(t, p) == Plug(t, p);
      WholeTree(t, p);
      ghost var whole := FixAdd(t0, p0);
      PlugIsBin(t, p);
      Pointers(whole, Top);
      SetRed(root, false, whole, Top);
    }

    lemma WithinRepr(t: Shape<Node>, p: Path<Node>)
      requires At(t, p)
      ensures Nodes(t) <= repr && PathNodes(p) <= repr
    {
    }

    /** The loop test, read off the focus. */
    lemma ParentPointers(t: Shape<Node>, p: Path<Node>)
      requires At(t, p) && t.Bin?
      ensures t.cell.node.parent == ParentOf(p) && IsRedNode(t.cell.node.parent) == ParentRed(p)
      ensures p.Step? ==> p.cell.node.parent == ParentOf(p.up)
    {
    }

    /** Whether the parent is a left child, told by the pointers. */
    lemma SideOfParent(t: Shape<Node>, p: Path<Node>)
      requires At(t, p) && t.Bin? && AddLoops(p)
      ensures t.cell.node.parent == p.cell.node && p.cell.node.parent == p.up.cell.node
      ensures p.cell.node == p.up.cell.node.Child(LEFT) <==> p.up.dir == LEFT
    {
      Zip(t, p);
      Pointers(t, p);
      Pointers(Make(p.dir, t, p.cell, p.sib), p.up);
    }

    lemma {:induction false} WholeTree(t: Shape<Node>, p: Path<Node>)
      requires At(t, p)
      ensures At(Plug(t, p), Top)
      decreases p
    {
      if p.Step? {
        Zip(t, p);
        WholeTree(Make(p.dir, t, p.cell, p.sib), p.up);
      }
    }

    lemma {:induction false} FocusOn(t: Shape<Node>, p: Path<Node>)
      requires At(Plug(t, p), Top)
      ensures At(t, p)
      decreases p
    {
      if p.Step? {
        FocusOn(Make(p.dir, t, p.cell, p.sib), p.up);
        Zip(t, p);
      }
    }

    // ---------------------------------------------------------------- the tree as a whole

    /** Pointers, search order and counters are right. */
    ghost predicate InMemory()
      reads this, repr, Nodes(shape)
    {
      At(shape, Top) && Sound(InOrder(shape), count, size)
    }

    ghost predicate Valid()
      reads this, repr, Nodes(shape)
    {
      InMemory() && Balanced(shape)
    }

    ghost function Contents(): seq<Entry>
      reads this
    {
      InOrder(shape)
    }

    constructor ()
      ensures Valid() && Contents() == [] && fresh(repr)
    {
      root, count, size, shape, repr := null, 0, 0, Leaf, {};
    }

    /** Adds an item, or replaces the item of its key: `a` and `b` are the entries with smaller and larger
        keys.  With an absent key the tree stays balanced; with a present one it stays balanced exactly when
        the node is not a black inner grandchild below a red parent with a black uncle. */
    method Add(content: Item, size: int) returns (replaced: Content, ghost a: seq<Entry>, ghost b: seq<Entry>)
      requires Valid()
      modifies this, repr
      ensures InMemory() && fresh(repr - old(repr))
      ensures AllBelow(a, content.key) && AllAbove(b, content.key) && Contents() == a + [Entry(content, size)] + b
      ensures replaced == Null <==> !HasKey(old(Contents()), content.key)
      ensures replaced == Null ==> Valid() && old(Contents()) == a + b
      ensures replaced != Null ==>
        replaced.item.key == content.key && exists z :: old(Contents()) == a + [Entry(replaced.item, z)] + b
      ensures replaced != Null ==>
        var (t, p) := Search(old(shape), Top, content.key); Valid() <==> !BlackInner(t, p)
    {
      var curparent, curnode, left;
      ghost var t, p;
      curparent, curnode, left, t, p := Descend(content.key);
      AroundSought(t, p);
      hide Ordered, At, InOrder, Sound, Balanced, BlackInner, HasKey, Search, Before, After, Plug, AllBelow, AllAbove;
      if curnode != null {
        replaced := curnode.content;
        a, b := Before(p) + InOrder(t.left), InOrder(t.right) + After(p);
        AddExisting(curnode, content, size, t, p);
      } else {
        replaced := Null;
        a, b := Before(p), After(p);
        AddNew(curparent, left, content, size, p);
      }
    }

    /** The search loop of `TreeAddByIndex`. */
    method Descend(key: int)
      returns (curparent: Node?, curnode: Node?, left: bool, ghost t: Shape<Node>, ghost p: Path<Node>)
      requires Valid()
      ensures At(t, p) && (t, p) == Search(shape, Top, key) && Plug(t, p) == shape
      ensures curnode == RootOf(t) && curparent == ParentOf(p) && (p.Step? ==> left == p.dir)
      ensures t.Bin? ==> curnode.content == Some(t.cell.item) && curnode.size == t.cell.size
      ensures (t.Bin? <==> HasKey(Contents(), key)) && Contents() == Before(p) + InOrder(t) + After(p)
      ensures AllBelow(Before(p), key) && AllAbove(After(p), key)
    {
      t, p := shape, Top;
      curparent, curnode, left := null, root, LEFT;
      while curnode != null && curnode.content.item.key != key
        invariant At(t, p) && curnode == RootOf(t)
        invariant t.Bin? ==> curnode.content == Some(t.cell.item) && curnode.size == t.cell.size
        invariant curparent == ParentOf(p) && (p.Step? ==> left == p.dir)
        invariant Search(t, p, key) == Search(shape, Top, key)
        decreases t
      {
        left := curnode.content.item.key < key;
        Focus(t, p, left);
        curparent := curnode;
        curnode := curnode.Child(left);
        t, p := Kid(t, left), Step(left, t.cell, Kid(t, !left), p);
      }
      SearchFinds(shape, key);
      SearchPlug(shape, Top, key);
    }

    /** The key is there already: its item is replaced and the balancing loop runs on the old node. */
    method AddExisting(curnode: Node, content: Item, size: int, ghost t: Shape<Node>, ghost p: Path<Node>)
      requires Valid() && At(t, p) && t.Bin? && curnode == t.cell.node && Plug(t, p) == shape
      requires t.cell.item.key == content.key && curnode.size == t.cell.size
      modifies this, repr
      ensures InMemory() && repr == old(repr)
      ensures var a, b := Before(p) + InOrder(t.left), InOrder(t.right) + After(p);
        old(Contents()) == a + [EntryOf(t.cell)] + b && Contents() == a + [Entry(content, size)] + b
      ensures Balanced(shape) <==> !BlackInner(t, p)
    {
      hide At, Balanced, InOrder, AfterAdd, Before, After, Sound;
      ghost var t' := t.(cell := t.cell.(item := content, size := size));
      ReplacedEntries(t, t', p, count, this.size);
      PlugSameColours(t, t', p);
      ReAddKeepsBalance(t', p);
      WithinRepr(shape, Top);
      var was := curnode.size;
      OverwriteAndBalance(curnode, content, size, t, p);
      WithinRepr(AfterAdd(t', p), Top);
      this.size := this.size + (size - was);
      shape := AfterAdd(t', p);
    }

    method OverwriteAndBalance(curnode: Node, content: Item, size: int, ghost t: Shape<Node>, ghost p: Path<Node>)
      requires At(t, p) && t.Bin? && curnode == t.cell.node
      modifies this`root, repr
      ensures At(AfterAdd(t.(cell := t.cell.(item := content, size := size)), p), Top)
    {
      Pointers(t, p);
      hide At, AfterAdd;
      ReplaceItem(curnode, content, size, t, p);
      BalanceAfterAdd(curnode, t.(cell := t.cell.(item := content, size := size)), p);
    }

    /** The key is new: a red leaf is hung where the search ended. */
    method AddNew(curparent: Node?, left: bool, content: Item, size: int, ghost p: Path<Node>)
      requires Valid() && At(Leaf, p) && Plug(Leaf, p) == shape && Contents() == Before(p) + After(p)
      requires curparent == ParentOf(p) && (p.Step? ==> left == p.dir)
      requires AllBelow(Before(p), content.key) && AllAbove(After(p), content.key)
      modifies this, repr
      ensures Valid() && fresh(repr - old(repr)) && Contents() == Before(p) + [Entry(content, size)] + After(p)
    {
      hide At, Balanced, InOrder, AfterAdd, Before, After, Sound, AllBelow, AllAbove;
      ghost var c := HangLeaf(curparent, left, content, size, p);
      AddedEntries(c, p, count, this.size);
      AddKeepsBalance(c, p);
      WithinRepr(AfterAdd(Bin(Leaf, c, Leaf), p), Top);
      count := count + 1;
      this.size := this.size + size;
      shape := AfterAdd(Bin(Leaf, c, Leaf), p);
    }

    method HangLeaf(curparent: Node?, left: bool, content: Item, size: int, ghost p: Path<Node>)
      returns (ghost c: Cell<Node>)
      requires At(Leaf, p) && curparent == ParentOf(p) && (p.Step? ==> left == p.dir)
      modifies this`root, this`repr, repr
      ensures c.red && c.item == content && c.size == size && At(AfterAdd(Bin(Leaf, c, Leaf), p), Top)
      ensures fresh(repr - old(repr))
    {
      assert Nodes(Leaf) == {} && PathNodes(p) <= repr;
      hide At, AfterAdd;
      var newel := new Node(curparent, true, Some(content), size);
      c := Cell(newel, true, content, size);
      LinkLeaf(newel, curparent, left, c, p);
      BalanceAfterAdd(newel, Bin(Leaf, c, Leaf), p);
    }

    /** Overwrites the item of a node in place. */
    method ReplaceItem(n: Node, content: Item, size: int, ghost t: Shape<Node>, ghost p: Path<Node>)
      requires At(t, p) && t.Bin? && n == t.cell.node
      modifies n`content, n`size
      ensures At(t.(cell := t.cell.(item := content, size := size)), p)
    {
      assert Linked(t.left, n) && Linked(t.right, n);
      assert n !in Nodes(t.left) && n !in Nodes(t.right) && n !in PathNodes(p);
      assert Nodes(t.left) <= repr && Nodes(t.right) <= repr && PathNodes(p) <= repr;
      n.content := Some(content);
      n.size := size;
      assert Linked(t.left, n) && Linked(t.right, n);
    }

    /** Hangs a new leaf below its parent, or makes it the root. */
    method LinkLeaf(newel: Node, curparent: Node?, left: bool, ghost c: Cell<Node>, ghost p: Path<Node>)
      requires At(Leaf, p) && newel !in repr && curparent == ParentOf(p) && (p.Step? ==> left == p.dir)
      requires c.node == newel && Holds(c, curparent, null, null)
      modifies this`root, this`repr, repr
      ensures At(Bin(Leaf, c, Leaf), p) && repr == old(repr) + {newel}
    {
      if curparent != null {
        assert Linked(p.sib, p.cell.node) && LinkedPath(p.up, p.cell.node, root) && PathNodes(p) <= repr;
        curparent.SetChild(left, newel);
        assert Linked(p.sib, p.cell.node) && LinkedPath(p.up, p.cell.node, root);
      } else {
        root := newel;
      }
      repr := repr + {newel};
    }

    /** The node with this key and its position, or null; a lookup visits at most 2 * log2(count + 1) nodes. */
    method Find(key: int) returns (node: Node?, ghost pos: nat, ghost visited: nat)
      requires Valid()
      ensures node == null <==> !HasKey(Contents(), key)
      ensures node != null ==>
        && pos < |NodeOrder(shape)| && NodeOrder(shape)[pos] == node && node in repr
        && pos < |Contents()| && Contents()[pos].item.key == key && node.content == Some(Contents()[pos].item)
      ensures Pow2(visited) <= (count + 1) * (count + 1)
    {
      ghost var t, p;
      node, visited, t, p := Seek(key);
      hide At, Sound, InOrder, NodeOrder, Balanced, Before, After, Plug, HasKey, Search, Pow2;
      pos := if t.Leaf? then 0 else |Before(p)| + |InOrder(t.left)|;
      SearchHits(shape, key);
      VisitsBounded(shape, visited);
    }

    /** The loop of `TreeFindIndex1`, counting the nodes looked at. */
    method Seek(key: int) returns (node: Node?, ghost visited: nat, ghost t: Shape<Node>, ghost p: Path<Node>)
      requires Valid()
      ensures (t, p) == Search(shape, Top, key) && node == RootOf(t)
      ensures t.Bin? ==> node in repr && node.content == Some(t.cell.item)
      ensures visited <= Height(shape)
    {
      t, p := shape, Top;
      node := root;
      visited := 0;
      while node != null && node.content.item.key != key
        invariant At(t, p) && node == RootOf(t) && (t.Bin? ==> node.content == Some(t.cell.item) && node in repr)
        invariant Search(t, p, key) == Search(shape, Top, key)
        invariant visited + Height(t) <= Height(shape)
        decreases t
      {
        ghost var dir := if node.content.item.key < key then RIGHT else LEFT;
        Focus(t, p, dir);
        node := node.Child(node.content.item.key < key);
        t, p := Kid(t, dir), Step(dir, t.cell, Kid(t, !dir), p);
        visited := visited + 1;
      }
      if node != null { visited := visited + 1; }
    }

    // ---------------------------------------------------------------- in key order

    method Minimum(node: Node, ghost t0: Shape<Node>, ghost p0: Path<Node>)
      returns (curnode: Node, ghost q: Path<Node>)
      requires At(t0, p0) && t0.Bin? && node == t0.cell.node
      ensures var (c, child, p) := Leftmost(t0, p0); curnode == c.node && q == p && At(Bin(Leaf, c, child), q)
    {
      ghost var t := t0;
      curnode, q := node, p0;
      while curnode.left != null
        invariant At(t, q) && t.Bin? && curnode == t.cell.node
        invariant Leftmost(t, q) == Leftmost(t0, p0)
        decreases t
      {
        Focus(t, q, LEFT);
        curnode := curnode.left;
        t, q := t.left, Step(LEFT, t.cell, t.right, q);
      }
    }

    /** `TreeSuccessor`: down to the leftmost node on the right, or up to the first ancestor on that side. */
    method Successor(node: Node, ghost t0: Shape<Node>, ghost p0: Path<Node>) returns (curnode: Node?)
      requires At(t0, p0) && t0.Bin? && node == t0.cell.node
      ensures var after := NodeOrder(t0.right) + NodesAfter(p0); curnode == if after == [] then null else after[0]
    {
      curnode := node;
      if curnode.right != null {
        ghost var q;
        Focus(t0, p0, RIGHT);
        LeftmostIsFirst(t0.right, Step(RIGHT, t0.cell, t0.left, p0));
        curnode, q := Minimum(curnode.right, t0.right, Step(RIGHT, t0.cell, t0.left, p0));
      } else {
        var curparent := curnode.parent;
        ghost var t, p := t0, p0;
        while curparent != null && curnode == curparent.right
          invariant At(t, p) && curnode != null && curnode == RootOf(t) && curparent == ParentOf(p)
          invariant NodesAfter(p) == NodesAfter(p0)
          decreases p
        {
          Pointers(t, p);
          Zip(t, p);
          curnode := curparent;
          t, p := Make(p.dir, t, p.cell, p.sib), p.up;
          Pointers(t, p);
          curparent := curparent.parent;
        }
        Pointers(t, p);
        curnode := curparent;
      }
    }

    /** The node after the one at position i, or the first one; null behind the last. */
    method NextElement(curnode: Node?, ghost i: nat) returns (next: Node?)
      requires Valid() && (curnode != null ==> i < |NodeOrder(shape)| && NodeOrder(shape)[i] == curnode)
      ensures var k := if curnode == null then 0 else i + 1;
        && |NodeOrder(shape)| == |Contents()|
        && (next == null <==> k >= |Contents()|)
        && (next != null ==>
            next == NodeOrder(shape)[k] && next.content == Some(Contents()[k].item)
            && next.size == Contents()[k].size)
    {
      ghost var ns, k := NodeOrder(shape), if curnode == null then 0 else i + 1;
      SameLength(shape);
      assert |ns| == |Contents()| && (root == null <==> ns == []) && root == RootOf(shape) && At(shape, Top);
      hide NodeOrder, InOrder, Sound, Balanced;
      if curnode == null {
        next := root;
        if root != null {
          ghost var q;
          LeftmostIsFirst(shape, Top);
          next, q := Minimum(root, shape, Top);
        }
      } else {
        ghost var (t, p) := Locate(shape, Top, i);
        LocateFinds(shape, Top, i);
        NodeAfter(t, p, i);
        FocusOn(t, p);
        next := Successor(curnode, t, p);
        assert next != null ==> next == ns[i + 1..][0];
      }
      NodesCarry(shape, null);
      assert next != null ==> next == ns[k];
    }

    // ---------------------------------------------------------------- removing

    /** `n` is the subtree's root, or, for an empty subtree, a temporary node outside the tree that knows the
        parent. */
    ghost predicate Stands(n: Node, t: Shape<Node>, p: Path<Node>)
      reads this`repr, n
    {
      if t.Bin? then n == t.cell.node
      else n !in repr && n.parent == ParentOf(p) && n.content == Null && !n.red && p.Step?
    }

    lemma Standing(n: Node, t: Shape<Node>, p: Path<Node>)
      requires At(t, p) && Stands(n, t, p)
      ensures n.parent == ParentOf(p) && (if n.content != Null then n else null) == RootOf(t)
          && IsRedNode(n) == IsRed(t)
      ensures n == root <==> p.Top?
      ensures p.Step? && (t.Bin? || p.sib.Bin?) ==> (RootOf(t) == p.cell.node.left <==> p.dir == LEFT)
    {
      Pointers(t, p);
      if p.Step? { RootInPath(p, RootOf(t), root); }
    }

    lemma Across(t: Shape<Node>, p: Path<Node>)
      requires p.Step?
      ensures At(t, p) <==> At(p.sib, Step(!p.dir, p.cell, t, p.up))
    {
      Zip(t, p);
      Zip(p.sib, Step(!p.dir, p.cell, t, p.up));
      assert Make(p.dir, t, p.cell, p.sib) == Make(!p.dir, p.sib, p.cell, t);
    }

    /** The sibling is red: it turns black, the parent red, and the sibling is rotated up. */
    method RaiseSibling(curnode: Node, sibling: Node, which: bool, ghost t: Shape<Node>, ghost p: Path<Node>)
      requires At(t, p) && Stands(curnode, t, p) && p.Step? && which == !p.dir
      requires IsRed(p.sib) && sibling == p.sib.cell.node
      modifies this`root, repr
      ensures At(t, BlackSibling(p)) && Stands(curnode, t, BlackSibling(p))
    {
      ghost var p1 := p.(sib := Paint(p.sib, false));
      ghost var p2 := p1.(cell := p.cell.(red := true));
      hide At, Linked, Nodes, Apart, LinkedPath, PathNodes, ApartPath, Holds;
      Across(t, p);
      SetRed(sibling, false, p.sib, Step(which, p.cell, t, p.up));
      Across(t, p1);
      Zip(t, p1);
      Standing(curnode, t, p1);
      SetRed(curnode.parent, true, Make(p.dir, t, p1.cell, p1.sib), p.up);
      assert Paint(Make(p.dir, t, p1.cell, p1.sib), true) == Make(p.dir, t, p2.cell, p2.sib);
      Zip(t, p2);
      Standing(curnode, t, p2);
      Rotate(curnode.parent, !which, Make(p.dir, t, p2.cell, p2.sib), p.up);
      Zip(t, BlackSibling(p));
      Zip(Make(p.dir, t, p2.cell, Kid(p.sib, p.dir)), BlackSibling(p).up);
    }

    method LeanSibling(sibling: Node, which: bool, ghost t: Shape<Node>, ghost p: Path<Node>)
      requires At(t, p) && p.Step? && which == !p.dir && p.sib.Bin? && sibling == p.sib.cell.node
      requires !KidsBlack(p.sib) && !IsRed(Kid(p.sib, which))
      modifies this`root, repr
      ensures At(t, p.(sib := Lean(p.dir, p.sib)))
    {
      ghost var side, s := Step(which, p.cell, t, p.up), p.sib;
      ghost var near, far := Kid(s, !which), Kid(s, which);
      hide At, Linked, Nodes, Apart, LinkedPath, PathNodes, ApartPath, Holds;
      Across(t, p);
      Pointers(s, side);
      Focus(s, side, !which);
      SetRed(sibling.Child(!which), false, near, Step(!which, s.cell, far, side));
      Zip(Paint(near, false), Step(!which, s.cell, far, side));
      ghost var s' := Make(!which, Paint(near, false), s.cell, far);
      SetRed(sibling, true, s', side);
      Rotate(sibling, which, Paint(s', true), side);
      Across(t, p.(sib := Lean(p.dir, s)));
    }

    method LiftSibling(curnode: Node, sibling: Node, which: bool, ghost t: Shape<Node>, ghost p: Path<Node>)
      requires At(t, p) && Stands(curnode, t, p) && p.Step? && which == !p.dir
      requires p.sib.Bin? && Kid(p.sib, which).Bin? && sibling == p.sib.cell.node
      modifies this`root, repr
      ensures At(Lift(t, p), p.up)
    {
      ghost var near, far := Kid(p.sib, !which), Kid(p.sib, which);
      ghost var p2 := p.(sib := Paint(p.sib, p.cell.red), cell := p.cell.(red := false));
      ghost var p3 := p2.(sib := Make(p.dir, near, p2.sib.cell, Paint(far, false)));
      hide At, Linked, Nodes, Apart, LinkedPath, PathNodes, ApartPath, Holds;
      TakeColour(curnode, sibling, which, t, p);
      BlackenOuter(sibling, which, t, p2);
      Zip(t, p3);
      Standing(curnode, t, p3);
      Rotate(curnode.parent, !which, Make(p.dir, t, p3.cell, p3.sib), p.up);
    }

    lemma ParentColour(t: Shape<Node>, p: Path<Node>)
      requires At(t, p) && p.Step?
      ensures p.cell.node.red == p.cell.red
    {
    }

    /** The sibling takes the parent's colour, and the parent becomes black. */
    method TakeColour(curnode: Node, sibling: Node, which: bool, ghost t: Shape<Node>, ghost p: Path<Node>)
      requires At(t, p) && Stands(curnode, t, p) && p.Step? && which == !p.dir && p.sib.Bin?
          && sibling == p.sib.cell.node
      modifies repr
      ensures var p2 := p.(sib := Paint(p.sib, p.cell.red), cell := p.cell.(red := false));
        At(t, p2) && Stands(curnode, t, p2)
    {
      ghost var p1 := p.(sib := Paint(p.sib, p.cell.red));
      ghost var p2 := p1.(cell := p.cell.(red := false));
      hide At, Linked, Nodes, Apart, LinkedPath, PathNodes, ApartPath, Holds;
      Standing(curnode, t, p);
      ParentColour(t, p);
      Across(t, p);
      SetRed(sibling, curnode.parent.red, p.sib, Step(which, p.cell, t, p.up));
      Across(t, p1);
      Zip(t, p1);
      Standing(curnode, t, p1);
      SetRed(curnode.parent, false, Make(p.dir, t, p1.cell, p1.sib), p.up);
      assert Paint(Make(p.dir, t, p1.cell, p1.sib), false) == Make(p.dir, t, p2.cell, p2.sib);
      Zip(t, p2);
    }

    method BlackenOuter(sibling: Node, which: bool, ghost t: Shape<Node>, ghost p: Path<Node>)
      requires At(t, p) && p.Step? && which == !p.dir && p.sib.Bin? && Kid(p.sib, which).Bin?
          && sibling == p.sib.cell.node
      modifies repr
      ensures At(t, p.(sib := Make(p.dir, Kid(p.sib, p.dir), p.sib.cell, Paint(Kid(p.sib, which), false))))
    {
      ghost var s, side := p.sib, Step(which, p.cell, t, p.up);
      hide At, Linked, Nodes, Apart, LinkedPath, PathNodes, ApartPath, Holds;
      Across(t, p);
      Pointers(s, side);
      Focus(s, side, which);
      SetRed(sibling.Child(which), false, Kid(s, which), Step(which, s.cell, Kid(s, p.dir), side));
      Zip(Paint(Kid(s, which), false), Step(which, s.cell, Kid(s, p.dir), side));
      Across(t, p.(sib := Make(p.dir, Kid(s, p.dir), s.cell, Paint(Kid(s, which), false))));
    }

    lemma SiblingPointers(t: Shape<Node>, p: Path<Node>)
      requires At(t, p) && p.Step?
      ensures p.cell.node.Child(!p.dir) == RootOf(p.sib) && IsRedNode(RootOf(p.sib)) == IsRed(p.sib)
      ensures p.sib.Bin? ==>
          p.sib.cell.node in repr && forall d :: IsRedNode(p.sib.cell.node.Child(d)) == IsRed(Kid(p.sib, d))
    {
      Pointers(t, p);
      if p.sib.Bin? {
        Across(t, p);
        var side := Step(!p.dir, p.cell, t, p.up);
        Pointers(p.sib, side);
        Focus(p.sib, side, LEFT);
        Focus(p.sib, side, RIGHT);
        Pointers(p.sib.left, Step(LEFT, p.sib.cell, p.sib.right, side));
        Pointers(p.sib.right, Step(RIGHT, p.sib.cell, p.sib.left, side));
      }
    }

    /** The black sibling has a red child. */
    method BorrowAt(curnode: Node, sibling0: Node, which: bool, ghost t: Shape<Node>, ghost p: Path<Node>)
      requires At(t, p) && Stands(curnode, t, p) && p.Step? && which == !p.dir
      requires p.sib.Bin? && sibling0 == p.sib.cell.node && !KidsBlack(p.sib)
      modifies this`root, repr
      ensures At(Borrow(t, p), p.up)
    {
      ghost var q := p;
      hide At;
      var sibling := sibling0;
      SiblingPointers(t, p);
      if !IsRedNode(sibling.Child(which)) {
        LeanSibling(sibling, which, t, p);
        q := p.(sib := Lean(p.dir, p.sib));
        Standing(curnode, t, q);
        SiblingPointers(t, q);
        sibling := curnode.parent.Child(which);
      }
      LiftSibling(curnode, sibling, which, t, q);
    }

    method RemoveSub(curnode: Node, which: bool, ghost t: Shape<Node>, ghost p: Path<Node>)
      returns (next: Node, ghost t': Shape<Node>, ghost p': Path<Node>)
      requires At(t, p) && Stands(curnode, t, p) && p.Step? && which == !p.dir && !IsRed(t)
      modifies this`root, repr
      ensures At(t', p') && t'.Bin? && next == t'.cell.node && FixRemove(t', p') == FixRemove(t, p)
      ensures Depth(p') < Depth(p) || (Depth(p') == Depth(p) && IsRed(t'))
    {
      ghost var q := p;
      hide At, Borrow, Plug;
      Standing(curnode, t, p);
      SiblingPointers(t, p);
      var sibling := curnode.parent.Child(which);
      if IsRedNode(sibling) {
        RaiseSibling(curnode, sibling, which, t, p);
        q := BlackSibling(p);
        Standing(curnode, t, q);
        SiblingPointers(t, q);
        sibling := curnode.parent.Child(which);
      }
      if sibling == null {
        next, t', p' := curnode.parent, Make(q.dir, t, q.cell, q.sib), q.up;
        Zip(t, q);
      } else if !IsRedNode(sibling.Child(!which)) && !IsRedNode(sibling.Child(which)) {
        Across(t, q);
        SetRed(sibling, true, q.sib, Step(which, q.cell, t, q.up));
        ghost var q' := q.(sib := Paint(q.sib, true));
        Across(t, q');
        Zip(t, q');
        Standing(curnode, t, q');
        next, t', p' := curnode.parent, Make(q.dir, t, q.cell, q'.sib), q.up;
      } else {
        BorrowAt(curnode, sibling, which, t, q);
        WholeTree(Borrow(t, q), q.up);
        t', p' := Plug(Borrow(t, q), q.up), Top;
        BorrowEnds(t, p, q);
        Pointers(t', Top);
        next := root;
      }
    }

    method BalanceAfterRemove(node: Node, ghost t0: Shape<Node>, ghost p0: Path<Node>)
      requires At(t0, p0) && Stands(node, t0, p0) && (t0.Bin? || p0.sib.Bin?)
      modifies this`root, repr
      ensures At(FixRemove(t0, p0), Top)
    {
      var curnode := node;
      ghost var t, p := t0, p0;
      Standing(curnode, t, p);
      while curnode != root && !IsRedNode(curnode)
        invariant At(t, p) && Stands(curnode, t, p) && (t.Bin? || p.sib.Bin?)
        invariant FixRemove(t, p) == FixRemove(t0, p0)
        decreases Depth(p), !IsRed(t)
      {
        hide At, FixRemove;
        Standing(curnode, t, p);
        if (if curnode.content != Null then curnode else null) == curnode.parent.Child(LEFT) {
          curnode, t, p := RemoveSub(curnode, RIGHT, t, p);
        } else {
          curnode, t, p := RemoveSub(curnode, LEFT, t, p);
        }
      }
      hide At;
      Standing(curnode, t, p);
      SetRed(curnode, false, t, p);
      WholeTree(Paint(t, false), p);
    }

    /** Takes a node with at most one child out of the tree. */
    method Unlink(redundant: Node, curchild: Node?, ghost c: Cell<Node>, ghost l: Shape<Node>, ghost r: Shape<Node>,
        ghost q: Path<Node>)
      requires At(Bin(l, c, r), q) && (l.Leaf? || r.Leaf?) && redundant == c.node
      requires curchild == RootOf(if l.Bin? then l else r)
      modifies this`root, this`repr, repr
      ensures At(if l.Bin? then l else r, q) && repr == old(repr) - {redundant}
      ensures redundant.parent == ParentOf(q) && redundant.red == c.red && redundant.content == Some(c.item)
          && redundant.size == c.size
    {
      ghost var child := if l.Bin? then l else r;
      AroundRedundant(c, l, r, q);
      RootIsNode(child);
      ParentIsNode(q);
      hide At, Linked, Nodes, Apart, LinkedPath, PathNodes, ApartPath, Holds;
      Reparent(curchild, redundant.parent, child, redundant);
      Hang(redundant, curchild, LEFT, q);
      repr := repr - {redundant};
      PutTogether(child, q);
    }

    lemma PutTogether(t: Shape<Node>, p: Path<Node>)
      requires Nodes(t) <= repr && PathNodes(p) <= repr && ApartAll(t, p) && Linked(t, ParentOf(p))
          && LinkedPath(p, RootOf(t), root)
      ensures At(t, p)
    {
    }

    lemma AroundRedundant(c: Cell<Node>, l: Shape<Node>, r: Shape<Node>, q: Path<Node>)
      requires At(Bin(l, c, r), q) && (l.Leaf? || r.Leaf?)
      ensures var n, child := c.node, if l.Bin? then l else r;
        && Linked(child, n) && Apart(child) && ApartPath(q) && LinkedPath(q, n, root)
        && n !in Nodes(child) && n !in PathNodes(q) && Nodes(child) !! PathNodes(q)
        && n in repr && Nodes(child) <= repr && PathNodes(q) <= repr
        && n.parent == ParentOf(q) && n.red == c.red && n.content == Some(c.item) && n.size == c.size
    {
    }

    /** The node keeps its place and takes over the item of the successor that was unlinked in its stead. */
    method TakeOver(curnode: Node, redundant: Node, ghost t: Shape<Node>, ghost p: Path<Node>)
      requires t.Bin? && t.right.Bin? && curnode == t.cell.node
      requires var (c, child, q) := Leftmost(t.right, Step(RIGHT, t.cell, t.left, p));
        At(child, q) && redundant.content == Some(c.item) && redundant.size == c.size
      modifies curnode`content, curnode`size
      ensures var m := Leftmost(t.right, Top).0;
        var (c, child, q) := Leftmost(t.right, Step(RIGHT, t.cell.(item := m.item, size := m.size), t.left, p));
        At(child, q)
    {
      ghost var m := Leftmost(t.right, Top).0;
      ghost var cell := t.cell.(item := m.item, size := m.size);
      ghost var up, up' := Step(RIGHT, t.cell, t.left, p), Step(RIGHT, cell, t.left, p);
      ghost var rest := Bin(t.left, t.cell, WithoutLeftmost(t.right));
      hide At, Leftmost;
      LeftmostCell(t.right, Top, up);
      LeftmostPlug(t.right, up);
      LeftmostPlug(t.right, up');
      WholeTree(Leftmost(t.right, up).1, Leftmost(t.right, up).2);
      assert Plug(WithoutLeftmost(t.right), up) == Plug(rest, p);
      FocusOn(rest, p);
      ReplaceItem(curnode, redundant.content.item, redundant.size, rest, p);
      WholeTree(rest.(cell := cell), p);
      assert Plug(WithoutLeftmost(t.right), up') == Plug(rest.(cell := cell), p);
      FocusOn(Leftmost(t.right, up').1, Leftmost(t.right, up').2);
    }

    /** Rebalances after a node has been taken out; a temporary node stands for a missing child. */
    method Settle(redundant: Node, curchild: Node?, ghost red: bool, ghost child: Shape<Node>, ghost q: Path<Node>)
      requires At(child, q) && curchild == RootOf(child) && redundant.parent == ParentOf(q) && redundant.red == red
      requires child.Leaf? && !red && q.Step? ==> q.sib.Bin?
      modifies this`root, repr
      ensures At(Unhook(red, child, q), Top)
    {
      hide At, FixRemove, Plug;
      if !IsRedNode(redundant) {
        if curchild == null {
          if redundant.parent != null {
            WithinRepr(child, q);
            var temp := new Node(redundant.parent, false, Null, 0);
            BalanceAfterRemove(temp, child, q);
          }
        } else {
          BalanceAfterRemove(curchild, child, q);
        }
      } else {
        WholeTree(child, q);
      }
    }

    /** The node to take out of the tree: the one given, or its successor when it has two children. */
    method Redundant(curnode: Node, ghost t: Shape<Node>, ghost p: Path<Node>)
      returns (redundant: Node, ghost c: Cell<Node>, ghost l: Shape<Node>, ghost r: Shape<Node>, ghost q: Path<Node>)
      requires At(t, p) && t.Bin? && curnode == t.cell.node
      ensures At(Bin(l, c, r), q) && (l.Leaf? || r.Leaf?) && redundant == c.node
      ensures t.left.Bin? && t.right.Bin? ==>
        (c, r, q) == Leftmost(t.right, Step(RIGHT, t.cell, t.left, p)) && l.Leaf? && redundant != curnode
      ensures !(t.left.Bin? && t.right.Bin?) ==> Bin(l, c, r) == t && q == p
    {
      Pointers(t, p);
      redundant, c, l, r, q := curnode, t.cell, t.left, t.right, p;
      if curnode.left != null && curnode.right != null {
        ghost var up := Step(RIGHT, t.cell, t.left, p);
        redundant := Successor(curnode, t, p);
        LeftmostIsFirst(t.right, up);
        l, c, r, q := Leaf, Leftmost(t.right, up).0, Leftmost(t.right, up).1, Leftmost(t.right, up).2;
        WholeTree(t, p);
        LeftmostSplits(t.right, up);
        FocusOn(Bin(Leaf, c, r), q);
        LeftmostInside(t.right, up);
      }
    }

    method TakeOut(curnode: Node, ghost t: Shape<Node>, ghost p: Path<Node>) returns (freed: Node)
      requires At(t, p) && t.Bin? && curnode == t.cell.node && Balanced(Plug(t, p))
      modifies this`root, this`repr, repr
      ensures At(TreeShape.RemoveNode(t, p), Top) && repr == old(repr) - {freed} && freed in old(repr)
    {
      ghost var red, child, q;
      var curchild;
      freed, curchild, red, child, q := TakeNode(curnode, t, p);
      hide At, Balanced, Unhook, Plug, TreeShape.RemoveNode;
      Settle(freed, curchild, red, child, q);
    }

    /** The redundant node is unlinked; its child, the hole it left and its colour are what the rebalancing
        needs. */
    method TakeNode(curnode: Node, ghost t: Shape<Node>, ghost p: Path<Node>)
      returns (freed: Node, curchild: Node?, ghost red: bool, ghost child: Shape<Node>, ghost q: Path<Node>)
      requires At(t, p) && t.Bin? && curnode == t.cell.node && Balanced(Plug(t, p))
      modifies this`root, this`repr, repr
      ensures repr == old(repr) - {freed} && freed in old(repr)
      ensures At(child, q) && curchild == RootOf(child) && freed.parent == ParentOf(q) && freed.red == red
      ensures child.Leaf? && !red && q.Step? ==> q.sib.Bin?
      ensures TreeShape.RemoveNode(t, p) == Unhook(red, child, q)
    {
      ghost var c, l, r;
      freed, c, l, r, q := Redundant(curnode, t, p);
      child, red := if l.Bin? then l else r, c.red;
      hide At, Balanced, Unhook, Leftmost, Holds, Nodes, PathNodes, Plug;
      Pointers(Bin(l, c, r), q);
      KidPointers(freed, c, ParentOf(q), l, r);
      UnhookedSibling(t, p);
      curchild := freed.Child(if freed.left != null then LEFT else RIGHT);
      Unlink(freed, curchild, c, l, r, q);
      if freed != curnode {
        q := MoveItem(curnode, freed, child, t, p);
      }
    }

    /** The node's entry is replaced by its successor's, whose node has been unlinked. */
    method MoveItem(curnode: Node, redundant: Node, ghost child: Shape<Node>, ghost t: Shape<Node>,
        ghost p: Path<Node>) returns (ghost q: Path<Node>)
      requires t.Bin? && t.right.Bin? && curnode == t.cell.node
      requires var was := Leftmost(t.right, Step(RIGHT, t.cell, t.left, p));
        At(child, was.2) && child == was.1 && redundant.parent == ParentOf(was.2)
        && redundant.content == Some(was.0.item) && redundant.size == was.0.size
      modifies curnode`content, curnode`size
      ensures var m := Leftmost(t.right, Top).0;
        var now := Leftmost(t.right, Step(RIGHT, t.cell.(item := m.item, size := m.size), t.left, p));
        && q == now.2 && child == now.1 && now.0 == Leftmost(t.right, Step(RIGHT, t.cell, t.left, p)).0
        && At(child, q) && redundant.parent == ParentOf(q)
    {
      hide At, Leftmost;
      TakeOver(curnode, redundant, t, p);
      ghost var m := Leftmost(t.right, Top).0;
      ghost var up' := Step(RIGHT, t.cell.(item := m.item, size := m.size), t.left, p);
      SamePlace(t.right, Step(RIGHT, t.cell, t.left, p), up');
      q := Leftmost(t.right, up').2;
    }

    /** Removes the node at position i. */
    method RemoveNode(curnode: Node, ghost i: nat) returns (content: Content, ghost freed: Node)
      requires Valid() && i < |NodeOrder(shape)| && NodeOrder(shape)[i] == curnode
      modifies this, repr
      ensures Valid() && repr == old(repr) - {freed} && freed in old(repr)
      ensures i < |old(Contents())| && content == Some(old(Contents())[i].item)
      ensures Contents() == old(Contents())[..i] + old(Contents())[i + 1..]
    {
      hide At, Sound, Balanced, TreeShape.RemoveNode, InOrder, NodeOrder, Before, After, Locate, Nodes, PathNodes,
          NodesBefore;
      ghost var (t, p) := Locate(shape, Top, i);
      LocateFinds(shape, Top, i);
      NothingAbove(shape);
      SameLength(t.left);
      SameLengthBefore(p);
      FocusOn(t, p);
      Pointers(t, p);
      RemovedEntries(t, p, i, count, this.size);
      RemoveKeepsBalance(t, p);
      WithinRepr(shape, Top);
      var size := curnode.size;
      content := curnode.content;
      freed := TakeOut(curnode, t, p);
      WithinRepr(TreeShape.RemoveNode(t, p), Top);
      this.size := this.size - size;
      count := count - 1;
      shape := TreeShape.RemoveNode(t, p);
    }

    method RemoveKey(key: int) returns (content: Content, ghost pos: nat)
      requires Valid()
      modifies this, repr
      ensures Valid() && repr <= old(repr)
      ensures content == Null <==> !HasKey(old(Contents()), key)
      ensures content == Null ==> Contents() == old(Contents())
      ensures content != Null ==>
        && pos < |old(Contents())| && content.item == old(Contents())[pos].item && content.item.key == key
        && Contents() == old(Contents())[..pos] + old(Contents())[pos + 1..]
    {
      ghost var visited, freed;
      var curnode;
      curnode, pos, visited := Find(key);
      content := Null;
      if curnode != null {
        content, freed := RemoveNode(curnode, pos);
      }
    }
  }

  /** The one situation in which running the balancing loop on an old node breaks the balance. */
  predicate BlackInner(t: Shape<Node>, p: Path<Node>) {
    AddLoops(p) && !IsRed(p.up.sib) && !IsRed(t) && p.dir != p.up.dir
  }

  /** Search order and the two counters. */
  ghost predicate Sound(s: seq<Entry>, count: int, size: int) {
    Ordered(s) && count == |s| && size == Total(s)
  }

  /** What stands before and after the place of a key. */
  lemma AroundSought(t: Shape<Node>, p: Path<Node>)
    requires Ordered(Before(p) + InOrder(t) + After(p))
    ensures t.Leaf? ==> Before(p) + InOrder(t) + After(p) == Before(p) + After(p)
    ensures t.Bin? ==>
        AllBelow(Before(p) + InOrder(t.left), t.cell.item.key)
        && AllAbove(InOrder(t.right) + After(p), t.cell.item.key)
  {
    if t.Bin? { SidesOfKey(t, p); } else { Assoc(Before(p), [], After(p)); }
  }

  lemma SidesOfKey(t: Shape<Node>, p: Path<Node>)
    requires t.Bin? && Ordered(Before(p) + InOrder(t) + After(p))
    ensures AllBelow(Before(p) + InOrder(t.left), t.cell.item.key)
        && AllAbove(InOrder(t.right) + After(p), t.cell.item.key)
    ensures Before(p) + InOrder(t) + After(p) ==
        (Before(p) + InOrder(t.left)) + [EntryOf(t.cell)] + (InOrder(t.right) + After(p))
  {
    AroundKey(Before(p), InOrder(t.left), EntryOf(t.cell), InOrder(t.right), After(p), InOrder(t));
  }

  lemma AroundKey(a: seq<Entry>, b: seq<Entry>, e: Entry, c: seq<Entry>, d: seq<Entry>, s: seq<Entry>)
    requires s == b + [e] + c && Ordered(a + s + d)
    ensures AllBelow(a + b, e.item.key) && AllAbove(c + d, e.item.key)
    ensures a + s + d == (a + b) + [e] + (c + d)
  {
    assert a + s + d == (a + b) + [e] + (c + d);
    OrderedParts(a + b, e, c + d);
  }

  lemma AddedEntries(c: Cell<Node>, p: Path<Node>, count: int, size: int)
    requires Sound(Before(p) + After(p), count, size)
    requires AllBelow(Before(p), c.item.key) && AllAbove(After(p), c.item.key)
    ensures var s := InOrder(AfterAdd(Bin(Leaf, c, Leaf), p));
      s == Before(p) + [EntryOf(c)] + After(p) && Sound(s, count + 1, size + c.size)
  {
    AddInOrder(c, p);
    TotalAround(Before(p), EntryOf(c), After(p));
    TotalConcat(Before(p), After(p));
    OrderedHalves(Before(p), After(p));
    OrderedParts(Before(p), EntryOf(c), After(p));
  }

  lemma OrderedHalves(a: seq<Entry>, b: seq<Entry>)
    requires Ordered(a + b)
    ensures Ordered(a) && Ordered(b)
  {
    var s := a + b;
    forall i, j | 0 <= i < j < |a| ensures a[i].item.key < a[j].item.key { assert s[i] == a[i] && s[j] == a[j]; }
    forall i, j | 0 <= i < j < |b| ensures b[i].item.key < b[j].item.key {
      assert s[|a| + i] == b[i] && s[|a| + j] == b[j];
    }
  }

  lemma ReplacedEntries(t: Shape<Node>, t': Shape<Node>, p: Path<Node>, count: int, size: int)
    requires t.Bin? && t'.Bin? && t'.left == t.left && t'.right == t.right && t'.cell.item.key == t.cell.item.key
    requires Sound(InOrder(Plug(t, p)), count, size)
    ensures var a, b := Before(p) + InOrder(t.left), InOrder(t.right) + After(p);
      var s := InOrder(AfterAdd(t', p));
      && InOrder(Plug(t, p)) == a + [EntryOf(t.cell)] + b && s == a + [EntryOf(t'.cell)] + b
      && Sound(s, count, size - t.cell.size + t'.cell.size)
  {
    FixAddInOrder(t', p);
    PaintInOrder(FixAdd(t', p), false);
    EntriesAround(t, p);
    EntriesAround(t', p);
    hide InOrder, AfterAdd, FixAdd, Before, After, Ordered, Total;
    var a, b := Before(p) + InOrder(t.left), InOrder(t.right) + After(p);
    OrderedParts(a, EntryOf(t.cell), b);
    OrderedParts(a, EntryOf(t'.cell), b);
    TotalAround(a, EntryOf(t.cell), b);
    TotalAround(a, EntryOf(t'.cell), b);
  }

  lemma RemovedEntries(t: Shape<Node>, p: Path<Node>, i: nat, count: int, size: int)
    requires t.Bin? && i == |Before(p)| + |InOrder(t.left)| && Sound(InOrder(Plug(t, p)), count, size)
    ensures var s, s' := InOrder(Plug(t, p)), InOrder(TreeShape.RemoveNode(t, p));
      i < |s| && s[i] == EntryOf(t.cell) && s' == s[..i] + s[i + 1..] && Sound(s', count - 1, size - t.cell.size)
  {
    RemoveInOrder(t, p);
    EntriesAround(t, p);
    hide InOrder, Before, After, TreeShape.RemoveNode, Plug, Sound;
    TakenOut(Before(p) + InOrder(t.left), EntryOf(t.cell), InOrder(t.right) + After(p), InOrder(Plug(t, p)), i,
        count, size);
  }

  lemma TakenOut(a: seq<Entry>, e: Entry, b: seq<Entry>, s: seq<Entry>, i: nat, count: int, size: int)
    requires s == a + [e] + b && i == |a| && Sound(s, count, size)
    ensures i < |s| && s[i] == e && a + b == s[..i] + s[i + 1..] && Sound(a + b, count - 1, size - e.size)
  {
    OrderedParts(a, e, b);
    OrderedJoin(a, b, e.item.key);
    TotalAround(a, e, b);
    TotalConcat(a, b);
    assert s[..i] == a && s[i + 1..] == b;
  }

  lemma OrderedJoin(a: seq<Entry>, b: seq<Entry>, key: int)
    requires Ordered(a) && Ordered(b) && AllBelow(a, key) && AllAbove(b, key)
    ensures Ordered(a + b)
  {
  }

  /** A black node below the root has a sibling. */
  lemma UnhookedSibling(t: Shape<Node>, p: Path<Node>)
    requires t.Bin? && Balanced(Plug(t, p))
    ensures t.left.Leaf? && t.right.Leaf? && !t.cell.red && p.Step? ==> p.sib.Bin?
    ensures t.left.Bin? && t.right.Bin? ==>
      var m := Leftmost(t.right, Top).0;
      var (c, child, q) := Leftmost(t.right, Step(RIGHT, t.cell.(item := m.item, size := m.size), t.left, p));
      child.Leaf? && !c.red && q.Step? ==> q.sib.Bin?
  {
    if t.left.Bin? && t.right.Bin? {
      var m := Leftmost(t.right, Top).0;
      var cell := t.cell.(item := m.item, size := m.size);
      var up := Step(RIGHT, cell, t.left, p);
      LeftmostSplits(t.right, up);
      PlugSameColours(t, t.(cell := cell), p);
      var (c, child, q) := Leftmost(t.right, up);
      PlugEqualHeights(Bin(Leaf, c, child), q);
    } else {
      PlugEqualHeights(t, p);
    }
  }

  lemma EntriesAround(t: Shape<Node>, p: Path<Node>)
    requires t.Bin?
    ensures InOrder(Plug(t, p)) == (Before(p) + InOrder(t.left)) + [EntryOf(t.cell)] + (InOrder(t.right) + After(p))
  {
    InOrderPlug(t, p);
    Assoc5(Before(p), InOrder(t.left), [EntryOf(t.cell)], InOrder(t.right), After(p));
  }

  lemma PlugSameColours(t: Shape<Node>, t': Shape<Node>, p: Path<Node>)
    requires t.Bin? && t'.Bin? && t'.left == t.left && t'.right == t.right && t'.cell.red == t.cell.red
    ensures Balanced(Plug(t', p)) <==> Balanced(Plug(t, p))
  {
    PlugEqualHeights(t, p);
    PlugEqualHeights(t', p);
    PlugNoRedRed(t, p);
    PlugNoRedRed(t', p);
    PlugRoot(t, p);
    PlugRoot(t', p);
  }

  lemma {:induction false} PlugIsBin(t: Shape<Node>, p: Path<Node>)
    requires t.Bin? || p.Step?
    ensures Plug(t, p).Bin?
    decreases p
  {
    if p.Step? { PlugIsBin(Make(p.dir, t, p.cell, p.sib), p.up); }
  }

  /** Where the search for a key ends, in the orders of the nodes and of the entries. */
  lemma SearchHits(t: Shape<Node>, key: int)
    requires Ordered(InOrder(t))
    ensures var (u, p) := Search(t, Top, key);
      && (u.Leaf? <==> !HasKey(InOrder(t), key))
      && (u.Bin? ==> var i := |Before(p)| + |InOrder(u.left)|;
            && i < |NodeOrder(t)| && NodeOrder(t)[i] == u.cell.node
            && i < |InOrder(t)| && InOrder(t)[i] == EntryOf(u.cell) && u.cell.item.key == key)
  {
    var (u, p) := Search(t, Top, key);
    hide InOrder, NodeOrder, Before, After, Plug, HasKey, Search;
    SearchFinds(t, key);
    SearchPlug(t, Top, key);
    NothingAbove(t);
    if u.Bin? { NodeHere(u, p); }
  }

  /** A node's position among the nodes is its entry's position among the contents. */
  lemma NodeHere(t: Shape<Node>, p: Path<Node>)
    requires t.Bin?
    ensures var i, ns, s := |Before(p)| + |InOrder(t.left)|, NodeOrder(Plug(t, p)), InOrder(Plug(t, p));
      i < |ns| && ns[i] == t.cell.node && i < |s| && s[i] == EntryOf(t.cell)
  {
    NodeOrderPlug(t, p);
    EntriesAround(t, p);
    SameLength(t.left);
    SameLengthBefore(p);
  }

  lemma NothingAbove(t: Shape<Node>)
    ensures NodesBefore(Top) == [] && Plug(t, Top) == t
  {
  }

  lemma KidPointers(n: Node, c: Cell<Node>, parent: Node?, l: Shape<Node>, r: Shape<Node>)
    requires n == c.node && Holds(c, parent, RootOf(l), RootOf(r))
    ensures n.left == RootOf(l) && n.right == RootOf(r)
  {
  }

  /** The successor is the same node, with the same child, whatever the path above it. */
  lemma SamePlace(t: Shape<Node>, p: Path<Node>, q: Path<Node>)
    requires t.Bin? && ParentOf(p) == ParentOf(q)
    ensures var a, b := Leftmost(t, p), Leftmost(t, q); a.0 == b.0 && a.1 == b.1 && ParentOf(a.2) == ParentOf(b.2)
  {
    LeftmostCell(t, p, q);
    LeftmostChild(t, p, q);
    LeftmostParent(t, p, q);
  }

  lemma BorrowEnds(t: Shape<Node>, p: Path<Node>, q: Path<Node>)
    requires p.Step? && !IsRed(t) && q == BlackSibling(p) && q.sib.Bin? && !KidsBlack(q.sib)
    ensures var r := Plug(Borrow(t, q), q.up); r.Bin? && FixRemove(t, p) == FixRemove(r, Top)
  {
    PlugIsBin(Borrow(t, q), q.up);
  }

  lemma RecolourIsBin(t: Shape<Node>, p: Path<Node>)
    requires AddLoops(p)
    ensures Recolour(t, p).Bin?
  {
  }

  ghost predicate OffLimits(n: Node, near: Shape<Node>, mid: Shape<Node>, far: Shape<Node>, p: Path<Node>) {
    n !in Nodes(near) && n !in Nodes(mid) && n !in Nodes(far) && n !in PathNodes(p)
  }

  lemma ParentIsNode(p: Path<Node>)
    ensures p.Step? ==> p.cell.node in PathNodes(p)
  {
  }

  lemma RotateParts(t: Shape<Node>, dir: bool, p: Path<Node>, root: Node?, repr: set<Node>)
    requires t.Bin? && Kid(t, !dir).Bin?
    requires Nodes(t) + PathNodes(p) <= repr && ApartAll(t, p) && Linked(t, ParentOf(p))
        && LinkedPath(p, RootOf(t), root)
    ensures var o := Kid(t, !dir);
      var near, mid, far, curnode, other := Kid(t, dir), Kid(o, dir), Kid(o, !dir), t.cell.node, o.cell.node;
      && curnode != other && ApartPath(p) && Apart(mid) && curnode.Child(!dir) == other
      && HoldsMake(dir, t.cell, ParentOf(p), RootOf(near), other)
      && HoldsMake(dir, o.cell, curnode, RootOf(mid), RootOf(far))
      && Linked(near, curnode) && Linked(mid, other) && Linked(far, other) && LinkedPath(p, curnode, root)
      && Nodes(near) <= repr && Nodes(mid) <= repr && Nodes(far) <= repr && PathNodes(p) <= repr
      && OffLimits(curnode, near, mid, far, p) && OffLimits(other, near, mid, far, p)
      && RootOf(mid) !in Nodes(near) && RootOf(mid) !in Nodes(far) && RootOf(mid) !in PathNodes(p)
      && ParentOf(p) !in Nodes(near) && ParentOf(p) !in Nodes(mid) && ParentOf(p) !in Nodes(far)
      && curnode in Nodes(t) && other in Nodes(t) && (RootOf(mid) != null ==> RootOf(mid) in Nodes(t))
      && (p.Step? ==> p.cell.node in PathNodes(p))
  {
    var o := Kid(t, !dir);
    var near, mid, far := Kid(t, dir), Kid(o, dir), Kid(o, !dir);
    IsMake(t, dir);
    IsMake(o, dir);
    MakeNodes(dir, near, t.cell, o);
    MakeNodes(dir, mid, o.cell, far);
    MakeLinked(dir, near, t.cell, o, ParentOf(p));
    MakeLinked(dir, mid, o.cell, far, t.cell.node);
    RootIsNode(mid);
    ParentIsNode(p);
    hide Nodes, Apart, Linked, PathNodes, ApartPath, LinkedPath;
  }

  lemma RotateJoins(t: Shape<Node>, dir: bool, p: Path<Node>, root: Node?, repr: set<Node>)
    requires t.Bin? && Kid(t, !dir).Bin? && Nodes(t) + PathNodes(p) <= repr && ApartAll(t, p)
    requires var o := Kid(t, !dir);
      var near, mid, far, curnode, other := Kid(t, dir), Kid(o, dir), Kid(o, !dir), t.cell.node, o.cell.node;
      && HoldsMake(dir, o.cell, ParentOf(p), curnode, RootOf(far))
      && HoldsMake(dir, t.cell, other, RootOf(near), RootOf(mid))
      && Linked(near, curnode) && Linked(mid, curnode) && Linked(far, other) && LinkedPath(p, other, root)
    ensures var r := TreeShape.Rotate(t, dir);
      Nodes(r) + PathNodes(p) <= repr && ApartAll(r, p) && Linked(r, ParentOf(p)) && LinkedPath(p, RootOf(r), root)
  {
    RotateNodes(t, dir);
    var o := Kid(t, !dir);
    MakeLinked(dir, Kid(t, dir), t.cell, Kid(o, dir), o.cell.node);
    MakeLinked(dir, Make(dir, Kid(t, dir), t.cell, Kid(o, dir)), o.cell, Kid(o, !dir), ParentOf(p));
  }
}
