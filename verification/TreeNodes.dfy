/** Nodes of Tree.c in memory, and what it means that they form a given shape. */
module TreeNodes {
  import opened Sequences
  import opened TreeShape

  datatype Content = Null | Some(item: Item)

  class Node {
    var parent: Node?
    var left: Node?
    var right: Node?
    var red: bool
    var content: Content
    var size: int

    constructor (parent: Node?, red: bool, content: Content, size: int)
      ensures this.parent == parent && left == null && right == null
      ensures this.red == red && this.content == content && this.size == size
    {
      this.parent, this.left, this.right := parent, null, null;
      this.red, this.content, this.size := red, content, size;
    }

    function Child(dir: bool): Node?
      reads this
    {
      if dir == LEFT then left else right
    }

    method SetChild(dir: bool, n: Node?)
      modifies this`left, this`right
      ensures Child(dir) == n && Child(!dir) == old(Child(!dir))
      ensures left == (if dir == LEFT then n else old(left)) && right == (if dir == LEFT then old(right) else n)
    {
      if dir == LEFT { left := n; } else { right := n; }
    }
  }

  /** `isRed`: no node at all counts as black. */
  predicate IsRedNode(n: Node?)
    reads n
  {
    n != null && n.red
  }

  // ---------------------------------------------------------------- which nodes

  ghost function Nodes(t: Shape<Node>): set<Node> {
    if t.Leaf? then {} else Nodes(t.left) + {t.cell.node} + Nodes(t.right)
  }

  ghost function PathNodes(p: Path<Node>): set<Node> {
    if p.Top? then {} else Nodes(p.sib) + {p.cell.node} + PathNodes(p.up)
  }

  ghost predicate Apart(t: Shape<Node>) {
    t.Bin? ==>
      && Apart(t.left) && Apart(t.right) && Nodes(t.left) !! Nodes(t.right)
      && t.cell.node !in Nodes(t.left) && t.cell.node !in Nodes(t.right)
  }

  ghost predicate ApartPath(p: Path<Node>) {
    p.Step? ==>
      && Apart(p.sib) && ApartPath(p.up) && Nodes(p.sib) !! PathNodes(p.up)
      && p.cell.node !in Nodes(p.sib) && p.cell.node !in PathNodes(p.up)
  }

  ghost predicate ApartAll(t: Shape<Node>, p: Path<Node>) {
    Apart(t) && ApartPath(p) && Nodes(t) !! PathNodes(p)
  }

  function RootOf(t: Shape<Node>): Node? {
    if t.Leaf? then null else t.cell.node
  }

  function ParentOf(p: Path<Node>): Node? {
    if p.Top? then null else p.cell.node
  }

  // ---------------------------------------------------------------- pointers agree with the shape

  ghost predicate Holds(c: Cell<Node>, parent: Node?, left: Node?, right: Node?)
    reads c.node
  {
    && c.node.parent == parent && c.node.left == left && c.node.right == right
    && c.node.red == c.red && c.node.content == Some(c.item) && c.node.size == c.size
  }

  ghost predicate Linked(t: Shape<Node>, parent: Node?)
    reads Nodes(t)
  {
    t.Bin? ==>
      && Holds(t.cell, parent, RootOf(t.left), RootOf(t.right))
      && Linked(t.left, t.cell.node) && Linked(t.right, t.cell.node)
  }

  ghost predicate HoldsStep(p: Path<Node>, hole: Node?)
    requires p.Step?
    reads p.cell.node
  {
    if p.dir == LEFT then Holds(p.cell, ParentOf(p.up), hole, RootOf(p.sib))
    else Holds(p.cell, ParentOf(p.up), RootOf(p.sib), hole)
  }

  /** `root` is the tree's root pointer. */
  ghost predicate LinkedPath(p: Path<Node>, hole: Node?, root: Node?)
    reads PathNodes(p)
    decreases p
  {
    if p.Top? then root == hole
    else HoldsStep(p, hole) && Linked(p.sib, p.cell.node) && LinkedPath(p.up, p.cell.node, root)
  }

  // ---------------------------------------------------------------- taking apart and putting together

  /** The same notions on a tree written as `Make`, whichever side is which. */
  ghost predicate HoldsMake(dir: bool, cell: Cell<Node>, parent: Node?, near: Node?, far: Node?)
    reads cell.node
  {
    if dir == LEFT then Holds(cell, parent, near, far) else Holds(cell, parent, far, near)
  }

  lemma MakeNodes(dir: bool, near: Shape<Node>, cell: Cell<Node>, far: Shape<Node>)
    ensures Nodes(Make(dir, near, cell, far)) == Nodes(near) + {cell.node} + Nodes(far)
    ensures Apart(Make(dir, near, cell, far)) <==>
      && Apart(near) && Apart(far) && Nodes(near) !! Nodes(far)
      && cell.node !in Nodes(near) && cell.node !in Nodes(far)
  {
  }

  lemma MakeLinked(dir: bool, near: Shape<Node>, cell: Cell<Node>, far: Shape<Node>, parent: Node?)
    ensures Linked(Make(dir, near, cell, far), parent) <==>
      HoldsMake(dir, cell, parent, RootOf(near), RootOf(far)) && Linked(near, cell.node) && Linked(far, cell.node)
  {
  }

  lemma RootIsNode(t: Shape<Node>)
    ensures RootOf(t) != null ==> RootOf(t) in Nodes(t)
  {
  }

  lemma {:induction false} RootInPath(p: Path<Node>, hole: Node?, root: Node?)
    requires LinkedPath(p, hole, root) && p.Step?
    ensures root in PathNodes(p)
    decreases p
  {
    if p.up.Step? { RootInPath(p.up, p.cell.node, root); }
  }

  lemma IsMake(t: Shape<Node>, dir: bool)
    requires t.Bin?
    ensures t == Make(dir, Kid(t, dir), t.cell, Kid(t, !dir))
  {
  }

  lemma RotateNodes(t: Shape<Node>, dir: bool)
    requires t.Bin? && Kid(t, !dir).Bin?
    ensures Nodes(Rotate(t, dir)) == Nodes(t) && (Apart(t) ==> Apart(Rotate(t, dir)))
  {
    var o := Kid(t, !dir);
    var near, mid, far := Kid(t, dir), Kid(o, dir), Kid(o, !dir);
    IsMake(t, dir);
    IsMake(o, dir);
    MakeNodes(dir, near, t.cell, o);
    MakeNodes(dir, mid, o.cell, far);
    MakeNodes(dir, near, t.cell, mid);
    MakeNodes(dir, Make(dir, near, t.cell, mid), o.cell, far);
  }

  lemma PaintNodes(t: Shape<Node>, red: bool)
    ensures Nodes(Paint(t, red)) == Nodes(t) && (Apart(t) ==> Apart(Paint(t, red)))
        && RootOf(Paint(t, red)) == RootOf(t)
  {
  }

  // ---------------------------------------------------------------- nodes in key order

  ghost function NodeOrder(t: Shape<Node>): seq<Node> {
    if t.Leaf? then [] else NodeOrder(t.left) + [t.cell.node] + NodeOrder(t.right)
  }

  ghost function NodesBefore(p: Path<Node>): seq<Node>
    decreases p
  {
    if p.Top? then []
    else if p.dir == LEFT then NodesBefore(p.up)
    else NodesBefore(p.up) + NodeOrder(p.sib) + [p.cell.node]
  }

  ghost function NodesAfter(p: Path<Node>): seq<Node>
    decreases p
  {
    if p.Top? then []
    else if p.dir == LEFT then [p.cell.node] + NodeOrder(p.sib) + NodesAfter(p.up)
    else NodesAfter(p.up)
  }

  lemma {:induction false} NodeOrderPlug(t: Shape<Node>, p: Path<Node>)
    ensures NodeOrder(Plug(t, p)) == NodesBefore(p) + NodeOrder(t) + NodesAfter(p)
    decreases p
  {
    if p.Top? {
      assert [] + NodeOrder(t) + [] == NodeOrder(t);
    } else {
      var t', up := Make(p.dir, t, p.cell, p.sib), p.up;
      NodeOrderPlug(t', up);
      if p.dir == LEFT {
        Assoc5(NodesBefore(up), NodeOrder(t), [p.cell.node], NodeOrder(p.sib), NodesAfter(up));
      } else {
        Assoc5(NodesBefore(up), NodeOrder(p.sib), [p.cell.node], NodeOrder(t), NodesAfter(up));
      }
    }
  }

  /** Nodes and entries correspond position by position. */
  lemma {:induction false} NodesCarry(t: Shape<Node>, parent: Node?)
    requires Linked(t, parent)
    ensures |NodeOrder(t)| == |InOrder(t)|
    ensures forall i :: 0 <= i < |NodeOrder(t)| ==>
      NodeOrder(t)[i].content == Some(InOrder(t)[i].item) && NodeOrder(t)[i].size == InOrder(t)[i].size
  {
    if t.Bin? {
      NodesCarry(t.left, t.cell.node);
      NodesCarry(t.right, t.cell.node);
    }
  }

  lemma {:induction false} SameLength(t: Shape<Node>)
    ensures |NodeOrder(t)| == |InOrder(t)|
  {
    if t.Bin? {
      SameLength(t.left);
      SameLength(t.right);
    }
  }

  lemma {:induction false} SameLengthBefore(p: Path<Node>)
    ensures |NodesBefore(p)| == |Before(p)|
    decreases p
  {
    if p.Step? {
      SameLength(p.sib);
      SameLengthBefore(p.up);
    }
  }

  /** The focus on the node at position i of the subtree. */
  ghost function Locate(t: Shape<Node>, p: Path<Node>, i: nat): (r: (Shape<Node>, Path<Node>))
    requires i < |NodeOrder(t)|
    ensures r.0.Bin?
    decreases t
  {
    var n := |NodeOrder(t.left)|;
    if i < n then Locate(t.left, Step(LEFT, t.cell, t.right, p), i)
    else if i == n then (t, p)
    else Locate(t.right, Step(RIGHT, t.cell, t.left, p), i - n - 1)
  }

  lemma {:induction false} LocateFinds(t: Shape<Node>, p: Path<Node>, i: nat)
    requires i < |NodeOrder(t)|
    ensures var (t', p') := Locate(t, p, i);
      && Plug(t', p') == Plug(t, p) && t'.cell.node == NodeOrder(t)[i]
      && |NodesBefore(p')| + |NodeOrder(t'.left)| == |NodesBefore(p)| + i
    decreases t
  {
    var n := |NodeOrder(t.left)|;
    if i < n {
      LocateFinds(t.left, Step(LEFT, t.cell, t.right, p), i);
    } else if i > n {
      LocateFinds(t.right, Step(RIGHT, t.cell, t.left, p), i - n - 1);
    }
  }

  /** What follows a node in key order. */
  lemma NodeAfter(t: Shape<Node>, p: Path<Node>, i: nat)
    requires t.Bin? && i == |NodesBefore(p)| + |NodeOrder(t.left)|
    ensures i < |NodeOrder(Plug(t, p))| && NodeOrder(Plug(t, p))[i + 1..] == NodeOrder(t.right) + NodesAfter(p)
  {
    NodeOrderPlug(t, p);
    TailFrom(NodesBefore(p), NodeOrder(t.left), t.cell.node, NodeOrder(t.right), NodesAfter(p), NodeOrder(t));
  }

  lemma TailFrom(a: seq<Node>, b: seq<Node>, n: Node, c: seq<Node>, d: seq<Node>, s: seq<Node>)
    requires s == b + [n] + c
    ensures (a + s + d)[|a| + |b| + 1..] == c + d
  {
    assert a + s + d == (a + b + [n]) + (c + d);
  }

  lemma {:induction false} LeftmostIsFirst(t: Shape<Node>, p: Path<Node>)
    requires t.Bin?
    ensures |NodeOrder(t)| > 0 && Leftmost(t, p).0.node == NodeOrder(t)[0]
    decreases t
  {
    if t.left.Bin? { LeftmostIsFirst(t.left, Step(LEFT, t.cell, t.right, p)); }
  }

  lemma {:induction false} LeftmostInside(t: Shape<Node>, p: Path<Node>)
    requires t.Bin?
    ensures Leftmost(t, p).0.node in Nodes(t)
    decreases t
  {
    if t.left.Bin? { LeftmostInside(t.left, Step(LEFT, t.cell, t.right, p)); }
  }

  lemma {:induction false} LeftmostParent(t: Shape<Node>, p: Path<Node>, q: Path<Node>)
    requires t.Bin? && ParentOf(p) == ParentOf(q)
    ensures ParentOf(Leftmost(t, p).2) == ParentOf(Leftmost(t, q).2)
    decreases t
  {
    if t.left.Bin? {
      LeftmostParent(t.left, Step(LEFT, t.cell, t.right, p), Step(LEFT, t.cell, t.right, q));
    }
  }
}
