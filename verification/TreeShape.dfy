/** Red-black trees as values: the shapes that the pointer operations of Tree.c produce, a tree being
    taken apart at the node in hand into a subtree and the path to the root. */
module TreeShape {
  import opened Sequences

  const LEFT := false
  const RIGHT := true

  /** What a node points to; trees are ordered by key. */
  datatype Item = Item(key: int, data: int)

  datatype Cell<A> = Cell(node: A, red: bool, item: Item, size: int)

  datatype Shape<A> = Leaf | Bin(left: Shape<A>, cell: Cell<A>, right: Shape<A>)

  /** The way up from a subtree: it hangs on side `dir` of `cell`, whose other child is `sib`. */
  datatype Path<A> = Top | Step(dir: bool, cell: Cell<A>, sib: Shape<A>, up: Path<A>)

  function Kid<A>(t: Shape<A>, dir: bool): Shape<A>
    requires t.Bin?
  {
    if dir == LEFT then t.left else t.right
  }

  /** The tree with `near` on side `dir` and `far` on the other side. */
  function Make<A>(dir: bool, near: Shape<A>, cell: Cell<A>, far: Shape<A>): Shape<A> {
    if dir == LEFT then Bin(near, cell, far) else Bin(far, cell, near)
  }

  function Plug<A>(t: Shape<A>, p: Path<A>): Shape<A>
    decreases p
  {
    match p
    case Top => t
    case Step(dir, cell, sib, up) => Plug(Make(dir, t, cell, sib), up)
  }

  predicate IsRed<A>(t: Shape<A>) {
    t.Bin? && t.cell.red
  }

  function Paint<A>(t: Shape<A>, red: bool): Shape<A> {
    if t.Bin? then t.(cell := t.cell.(red := red)) else t
  }

  // ---------------------------------------------------------------- the rebalancing steps

  /** `TreeRotate`: the child opposite to `dir` moves up. */
  function Rotate<A>(t: Shape<A>, dir: bool): Shape<A>
    requires t.Bin? && Kid(t, !dir).Bin?
  {
    var other := Kid(t, !dir);
    Make(dir, Make(dir, Kid(t, dir), t.cell, Kid(other, dir)), other.cell, Kid(other, !dir))
  }

  predicate AddLoops<A>(p: Path<A>) {
    p.Step? && p.cell.red && p.up.Step?
  }

  /** `TreeBAASub` when the uncle is red: the grandparent takes the red. */
  function Recolour<A>(t: Shape<A>, p: Path<A>): Shape<A>
    requires AddLoops(p)
  {
    Make(p.up.dir, Make(p.dir, t, p.cell.(red := false), p.sib), p.up.cell.(red := true), Paint(p.up.sib, false))
  }

  /** `TreeBAASub` when the uncle is black: one or two rotations. */
  function Restructure<A>(t: Shape<A>, p: Path<A>): Shape<A>
    requires AddLoops(p) && t.Bin?
  {
    var which := !p.up.dir;
    var parent := Make(p.dir, t, p.cell, p.sib);
    var top := if p.dir == which then Rotate(parent, !which) else parent;
    Rotate(Make(p.up.dir, Paint(top, false), p.up.cell.(red := true), p.up.sib), which)
  }

  /** The loop of `TreeBalanceAfterAdd`. */
  function FixAdd<A>(t: Shape<A>, p: Path<A>): Shape<A>
    requires t.Bin?
    decreases p
  {
    if !AddLoops(p) then Plug(t, p)
    else if IsRed(p.up.sib) then FixAdd(Recolour(t, p), p.up.up)
    else Plug(Restructure(t, p), p.up.up)
  }

  function AfterAdd<A>(t: Shape<A>, p: Path<A>): Shape<A>
    requires t.Bin?
  {
    Paint(FixAdd(t, p), false)
  }

  /** `TreeBARSub`, first part: a red sibling is rotated up, the node in hand sinks one level. */
  function BlackSibling<A>(p: Path<A>): Path<A>
    requires p.Step?
  {
    if IsRed(p.sib) then
      Step(p.dir, p.cell.(red := true), Kid(p.sib, p.dir),
           Step(p.dir, p.sib.cell.(red := false), Kid(p.sib, !p.dir), p.up))
    else p
  }

  predicate KidsBlack<A>(t: Shape<A>)
    requires t.Bin?
  {
    !IsRed(t.left) && !IsRed(t.right)
  }

  /** `TreeBARSub`, when the black sibling's outer child is black: its red inner child is rotated up. */
  function Lean<A>(dir: bool, s: Shape<A>): (r: Shape<A>)
    requires s.Bin? && !KidsBlack(s)
    ensures r.Bin? && Kid(r, !dir).Bin?
  {
    if IsRed(Kid(s, !dir)) then s
    else Rotate(Paint(Make(dir, Paint(Kid(s, dir), false), s.cell, Kid(s, !dir)), true), !dir)
  }

  /** `TreeBARSub`, last part: the sibling takes over the parent's colour and is rotated up. */
  function Lift<A>(t: Shape<A>, p: Path<A>): Shape<A>
    requires p.Step? && p.sib.Bin? && Kid(p.sib, !p.dir).Bin?
  {
    var sib := Make(p.dir, Kid(p.sib, p.dir), p.sib.cell.(red := p.cell.red), Paint(Kid(p.sib, !p.dir), false));
    Rotate(Make(p.dir, t, p.cell.(red := false), sib), p.dir)
  }

  /** The black sibling has a red child, and rotations settle the matter. */
  function Borrow<A>(t: Shape<A>, p: Path<A>): Shape<A>
    requires p.Step? && p.sib.Bin? && !KidsBlack(p.sib)
  {
    Lift(t, p.(sib := Lean(p.dir, p.sib)))
  }

  function Depth<A>(p: Path<A>): nat {
    if p.Top? then 0 else 1 + Depth(p.up)
  }

  /** The loop of `TreeBalanceAfterRemove`, from a subtree that has lost one black node. */
  function FixRemove<A>(t: Shape<A>, p: Path<A>): Shape<A>
    decreases Depth(p), !IsRed(t)
  {
    if p.Top? || IsRed(t) then Plug(Paint(t, false), p)
    else
      var q := BlackSibling(p);
      if q.sib.Leaf? then FixRemove(Make(q.dir, t, q.cell, q.sib), q.up)
      else if KidsBlack(q.sib) then FixRemove(Make(q.dir, t, q.cell, Paint(q.sib, true)), q.up)
      else Paint(Plug(Borrow(t, q), q.up), false)
  }

  /** The leftmost node of a nonempty subtree: its cell, its right child and the path to it. */
  function Leftmost<A>(t: Shape<A>, p: Path<A>): (r: (Cell<A>, Shape<A>, Path<A>))
    requires t.Bin?
    decreases t
  {
    if t.left.Leaf? then (t.cell, t.right, p) else Leftmost(t.left, Step(LEFT, t.cell, t.right, p))
  }

  function WithoutLeftmost<A>(t: Shape<A>): Shape<A>
    requires t.Bin?
  {
    if t.left.Leaf? then t.right else Bin(WithoutLeftmost(t.left), t.cell, t.right)
  }

  lemma {:induction false} LeftmostPlug<A>(t: Shape<A>, p: Path<A>)
    requires t.Bin?
    ensures var (c, child, q) := Leftmost(t, p); Plug(child, q) == Plug(WithoutLeftmost(t), p)
    decreases t
  {
    if t.left.Bin? { LeftmostPlug(t.left, Step(LEFT, t.cell, t.right, p)); }
  }

  /** Taking out a node with at most one child `child`. */
  function Unhook<A>(red: bool, child: Shape<A>, p: Path<A>): Shape<A> {
    if red then Plug(child, p)
    else if child.Leaf? && p.Top? then Leaf
    else FixRemove(child, p)
  }

  /** `TreeRemoveNodeIndex`: a node with two children takes over its successor's item and the successor is
      taken out in its place. */
  function RemoveNode<A>(t: Shape<A>, p: Path<A>): Shape<A>
    requires t.Bin?
  {
    if t.left.Bin? && t.right.Bin? then
      var m := Leftmost(t.right, Top).0;
      var (c, child, q) := Leftmost(t.right, Step(RIGHT, t.cell.(item := m.item, size := m.size), t.left, p));
      Unhook(c.red, child, q)
    else
      Unhook(t.cell.red, if t.left.Bin? then t.left else t.right, p)
  }

  // ---------------------------------------------------------------- balance

  function BlackHeight<A>(t: Shape<A>): nat {
    if t.Leaf? then 0 else BlackHeight(t.left) + if t.cell.red then 0 else 1
  }

  /** Every way down passes the same number of black nodes. */
  predicate EqualHeights<A>(t: Shape<A>) {
    t.Bin? ==> EqualHeights(t.left) && EqualHeights(t.right) && BlackHeight(t.left) == BlackHeight(t.right)
  }

  predicate NoRedRed<A>(t: Shape<A>) {
    t.Bin? ==> NoRedRed(t.left) && NoRedRed(t.right) && (t.cell.red ==> !IsRed(t.left) && !IsRed(t.right))
  }

  predicate Balanced<A>(t: Shape<A>) {
    EqualHeights(t) && NoRedRed(t) && !IsRed(t)
  }

  /** The same for a path whose hole takes a subtree of black height h. */
  predicate EqualHeightsUp<A>(p: Path<A>, h: nat)
    decreases p
  {
    p.Step? ==> EqualHeights(p.sib) && BlackHeight(p.sib) == h && EqualHeightsUp(p.up, h + if p.cell.red then 0 else 1)
  }

  predicate NoRedRedUp<A>(p: Path<A>)
    decreases p
  {
    p.Step? ==> NoRedRed(p.sib) && NoRedRedUp(p.up)
                && (p.cell.red ==> !IsRed(p.sib) && !(p.up.Step? && p.up.cell.red))
  }

  predicate ParentRed<A>(p: Path<A>) {
    p.Step? && p.cell.red
  }

  /** The node at the end of the path, if any, is black. */
  predicate BlackTop<A>(p: Path<A>)
    decreases p
  {
    p.Step? ==> if p.up.Top? then !p.cell.red else BlackTop(p.up)
  }

  lemma {:induction false} PlugEqualHeights<A>(t: Shape<A>, p: Path<A>)
    ensures EqualHeights(Plug(t, p)) <==> EqualHeights(t) && EqualHeightsUp(p, BlackHeight(t))
    decreases p
  {
    if p.Step? {
      PlugEqualHeights(Make(p.dir, t, p.cell, p.sib), p.up);
    }
  }

  lemma {:induction false} PlugNoRedRed<A>(t: Shape<A>, p: Path<A>)
    ensures NoRedRed(Plug(t, p)) <==> NoRedRed(t) && NoRedRedUp(p) && !(IsRed(t) && ParentRed(p))
    decreases p
  {
    if p.Step? {
      PlugNoRedRed(Make(p.dir, t, p.cell, p.sib), p.up);
    }
  }

  lemma {:induction false} PlugRoot<A>(t: Shape<A>, p: Path<A>)
    ensures IsRed(Plug(t, p)) <==> if p.Top? then IsRed(t) else !BlackTop(p)
    ensures p.Step? ==> Plug(t, p).Bin?
    decreases p
  {
    if p.Step? {
      PlugRoot(Make(p.dir, t, p.cell, p.sib), p.up);
    }
  }

  lemma PaintBlack<A>(t: Shape<A>)
    ensures EqualHeights(Paint(t, false)) == EqualHeights(t)
    ensures NoRedRed(t) ==> NoRedRed(Paint(t, false))
    ensures !IsRed(Paint(t, false))
    ensures BlackHeight(Paint(t, false)) == BlackHeight(t) + if IsRed(t) then 1 else 0
  {
  }

  // ---------------------------------------------------------------- adding

  lemma RecolourKeeps<A>(t: Shape<A>, p: Path<A>)
    requires AddLoops(p) && IsRed(p.up.sib)
    requires EqualHeights(t) && NoRedRed(t) && EqualHeightsUp(p, BlackHeight(t)) && NoRedRedUp(p)
    ensures var g := Recolour(t, p);
      EqualHeights(g) && NoRedRed(g) && EqualHeightsUp(p.up.up, BlackHeight(g)) && NoRedRedUp(p.up.up)
  {
  }

  lemma RestructureKeeps<A>(t: Shape<A>, p: Path<A>)
    requires AddLoops(p) && !IsRed(p.up.sib) && t.Bin?
    requires EqualHeights(t) && NoRedRed(t) && EqualHeightsUp(p, BlackHeight(t)) && NoRedRedUp(p)
    requires IsRed(t) || p.dir == p.up.dir
    ensures var g := Restructure(t, p);
      EqualHeights(g) && NoRedRed(g) && !IsRed(g) && EqualHeightsUp(p.up.up, BlackHeight(g)) && NoRedRedUp(p.up.up)
  {
  }

  /** Whatever the colour of the node in hand, the loop ends in a balanced tree, unless a black node is an
      inner grandchild below a red parent with a black uncle. */
  lemma {:induction false} FixAddBalances<A>(t: Shape<A>, p: Path<A>)
    requires t.Bin? && EqualHeights(t) && NoRedRed(t) && EqualHeightsUp(p, BlackHeight(t)) && NoRedRedUp(p)
    requires !(AddLoops(p) && !IsRed(p.up.sib)) || IsRed(t) || p.dir == p.up.dir
    ensures Balanced(AfterAdd(t, p))
    decreases p
  {
    if !AddLoops(p) {
      PlugEqualHeights(t, p);
      if p.Step? && p.cell.red {
        assert p.up.Top?;
      } else {
        PlugNoRedRed(t, p);
      }
      PaintBlack(Plug(t, p));
    } else if IsRed(p.up.sib) {
      RecolourKeeps(t, p);
      FixAddBalances(Recolour(t, p), p.up.up);
    } else {
      RestructureKeeps(t, p);
      PlugEqualHeights(Restructure(t, p), p.up.up);
      PlugNoRedRed(Restructure(t, p), p.up.up);
      PaintBlack(Plug(Restructure(t, p), p.up.up));
    }
  }

  /** In that one case the black heights come apart. */
  lemma InnerBlackBreaks<A>(t: Shape<A>, p: Path<A>)
    requires t.Bin? && EqualHeights(t) && EqualHeightsUp(p, BlackHeight(t))
    requires AddLoops(p) && !IsRed(p.up.sib) && !IsRed(t) && p.dir != p.up.dir
    ensures !EqualHeights(AfterAdd(t, p))
  {
    var g := Restructure(t, p);
    assert !EqualHeights(g);
    PlugEqualHeights(g, p.up.up);
    PaintBlack(Plug(g, p.up.up));
  }

  /** Adding a key that is already in the tree runs the loop on its old node.  In a balanced tree that keeps
      the balance exactly when the node is not a black inner grandchild below a red parent with a black
      uncle. */
  lemma ReAddKeepsBalance<A>(t: Shape<A>, p: Path<A>)
    requires t.Bin? && Balanced(Plug(t, p))
    ensures Balanced(AfterAdd(t, p)) <==>
      !(ParentRed(p) && p.up.Step? && !IsRed(p.up.sib) && !IsRed(t) && p.dir != p.up.dir)
  {
    PlugEqualHeights(t, p);
    PlugNoRedRed(t, p);
    if AddLoops(p) && !IsRed(p.up.sib) && !IsRed(t) && p.dir != p.up.dir {
      InnerBlackBreaks(t, p);
    } else {
      FixAddBalances(t, p);
    }
  }

  function SingleNode(key: int, red: bool): Cell<int> {
    Cell(key, red, Item(key, 0), 1)
  }

  /** The smallest such tree: 10 over 5 (red) over 2 and 7, and 15.  Adding 7 again unbalances it. */
  lemma ReAddSevenBreaks()
    ensures var t := Bin(Leaf, SingleNode(7, false), Leaf);
      var p := Step(RIGHT, SingleNode(5, true), Bin(Leaf, SingleNode(2, false), Leaf),
                    Step(LEFT, SingleNode(10, false), Bin(Leaf, SingleNode(15, false), Leaf), Top));
      Balanced(Plug(t, p)) && !Balanced(AfterAdd(t, p))
  {
    var t := Bin(Leaf, SingleNode(7, false), Leaf);
    var p := Step(RIGHT, SingleNode(5, true), Bin(Leaf, SingleNode(2, false), Leaf),
                  Step(LEFT, SingleNode(10, false), Bin(Leaf, SingleNode(15, false), Leaf), Top));
    PlugEqualHeights(t, p);
    PlugNoRedRed(t, p);
    PlugRoot(t, p);
    ReAddKeepsBalance(t, p);
  }

  /** A new red leaf put in anywhere in a balanced tree leaves a balanced tree. */
  lemma AddKeepsBalance<A>(cell: Cell<A>, p: Path<A>)
    requires Balanced(Plug(Leaf, p)) && cell.red
    ensures Balanced(AfterAdd(Bin(Leaf, cell, Leaf), p))
  {
    PlugEqualHeights(Leaf, p);
    PlugNoRedRed(Leaf, p);
    FixAddBalances(Bin(Leaf, cell, Leaf), p);
  }

  // ---------------------------------------------------------------- removing

  /** The path wants one black node more than the subtree in hand has; a red root of the subtree is about
      to be painted black, so its children may be red. */
  ghost predicate OneShort<A>(t: Shape<A>, p: Path<A>) {
    EqualHeights(t) && NoRedRed(Paint(t, false)) && EqualHeightsUp(p, BlackHeight(t) + 1) && NoRedRedUp(p)
        && BlackTop(p)
  }

  lemma BlackSiblingKeeps<A>(t: Shape<A>, p: Path<A>)
    requires p.Step? && OneShort(t, p)
    ensures var q := BlackSibling(p);
      OneShort(t, q) && q.dir == p.dir && q.sib.Bin? && !IsRed(q.sib) && (IsRed(p.sib) ==> q.cell.red)
  {
  }

  /** What the one or two rotations come to. */
  lemma BorrowShape<A>(t: Shape<A>, p: Path<A>)
    requires p.Step? && p.sib.Bin? && !KidsBlack(p.sib)
    ensures var near, far := Kid(p.sib, p.dir), Kid(p.sib, !p.dir);
      Borrow(t, p) ==
        if IsRed(far) then
          Make(p.dir, Make(p.dir, t, p.cell.(red := false), near), p.sib.cell.(red := p.cell.red), Paint(far, false))
        else
          Make(p.dir, Make(p.dir, t, p.cell.(red := false), Kid(near, p.dir)), near.cell.(red := p.cell.red),
               Make(p.dir, Kid(near, !p.dir), p.sib.cell.(red := false), far))
  {
  }

  lemma MakeBalance<A>(dir: bool, near: Shape<A>, cell: Cell<A>, far: Shape<A>)
    ensures EqualHeights(Make(dir, near, cell, far)) <==>
            EqualHeights(near) && EqualHeights(far) && BlackHeight(near) == BlackHeight(far)
    ensures NoRedRed(Make(dir, near, cell, far)) <==>
            NoRedRed(near) && NoRedRed(far) && (cell.red ==> !IsRed(near) && !IsRed(far))
    ensures BlackHeight(near) == BlackHeight(far) ==>
            BlackHeight(Make(dir, near, cell, far)) == BlackHeight(near) + if cell.red then 0 else 1
    ensures IsRed(Make(dir, near, cell, far)) <==> cell.red
  {
  }

  lemma BorrowKeeps<A>(t: Shape<A>, p: Path<A>)
    requires p.Step? && OneShort(t, p) && !IsRed(t) && p.sib.Bin? && !IsRed(p.sib) && !KidsBlack(p.sib)
    ensures var g := Borrow(t, p);
      EqualHeights(g) && NoRedRed(g) && EqualHeightsUp(p.up, BlackHeight(g)) && (IsRed(g) <==> p.cell.red)
  {
    BorrowShape(t, p);
    var dir, near, far := p.dir, Kid(p.sib, p.dir), Kid(p.sib, !p.dir);
    MakeBalance(dir, near, p.sib.cell, far);
    assert p.sib == Make(dir, near, p.sib.cell, far);
    if IsRed(far) {
      PaintBlack(far);
      var low := Make(dir, t, p.cell.(red := false), near);
      MakeBalance(dir, t, p.cell.(red := false), near);
      MakeBalance(dir, low, p.sib.cell.(red := p.cell.red), Paint(far, false));
    } else {
      var low := Make(dir, t, p.cell.(red := false), Kid(near, dir));
      var low' := Make(dir, Kid(near, !dir), p.sib.cell.(red := false), far);
      MakeBalance(dir, Kid(near, dir), near.cell, Kid(near, !dir));
      assert near == Make(dir, Kid(near, dir), near.cell, Kid(near, !dir));
      MakeBalance(dir, t, p.cell.(red := false), Kid(near, dir));
      MakeBalance(dir, Kid(near, !dir), p.sib.cell.(red := false), far);
      MakeBalance(dir, low, near.cell.(red := p.cell.red), low');
    }
  }

  lemma {:induction false} FixRemoveBalances<A>(t: Shape<A>, p: Path<A>)
    requires OneShort(t, p)
    ensures Balanced(FixRemove(t, p))
    decreases Depth(p), !IsRed(t)
  {
    if p.Top? || IsRed(t) {
      PaintBlack(t);
      PlugEqualHeights(Paint(t, false), p);
      PlugNoRedRed(Paint(t, false), p);
      PlugRoot(Paint(t, false), p);
    } else {
      BlackSiblingKeeps(t, p);
      var q := BlackSibling(p);
      if KidsBlack(q.sib) {
        SiblingTurnsRed(t, q);
        FixRemoveBalances(Make(q.dir, t, q.cell, Paint(q.sib, true)), q.up);
      } else {
        BorrowKeeps(t, q);
        PlugEqualHeights(Borrow(t, q), q.up);
        PlugNoRedRed(Borrow(t, q), q.up);
        PaintBlack(Plug(Borrow(t, q), q.up));
      }
    }
  }

  lemma SiblingTurnsRed<A>(t: Shape<A>, p: Path<A>)
    requires p.Step? && OneShort(t, p) && !IsRed(t) && p.sib.Bin? && !IsRed(p.sib) && KidsBlack(p.sib)
    ensures OneShort(Make(p.dir, t, p.cell, Paint(p.sib, true)), p.up)
  {
    assert t == Paint(t, false);
    MakeBalance(p.dir, t, p.cell, Paint(p.sib, true));
    MakeBalance(p.dir, t, p.cell.(red := false), Paint(p.sib, true));
  }

  lemma {:induction false} LeftmostSplits<A>(t: Shape<A>, p: Path<A>)
    requires t.Bin?
    ensures var (c, child, q) := Leftmost(t, p); Plug(Bin(Leaf, c, child), q) == Plug(t, p)
    decreases t
  {
    if t.left.Bin? {
      LeftmostSplits(t.left, Step(LEFT, t.cell, t.right, p));
    }
  }

  lemma {:induction false} LeftmostCell<A>(t: Shape<A>, p: Path<A>, q: Path<A>)
    requires t.Bin?
    ensures Leftmost(t, p).0 == Leftmost(t, q).0
    decreases t
  {
    if t.left.Bin? {
      LeftmostCell(t.left, Step(LEFT, t.cell, t.right, p), Step(LEFT, t.cell, t.right, q));
    }
  }

  /** Only colours matter for balance. */
  lemma {:induction false} UnhookBalances<A>(c: Cell<A>, left: Shape<A>, right: Shape<A>, p: Path<A>)
    requires left.Leaf? || right.Leaf?
    requires Balanced(Plug(Bin(left, c, right), p))
    ensures Balanced(Unhook(c.red, if left.Bin? then left else right, p))
  {
    var t := Bin(left, c, right);
    var child := if left.Bin? then left else right;
    PlugEqualHeights(t, p);
    PlugNoRedRed(t, p);
    PlugRoot(t, p);
    if c.red {
      PlugEqualHeights(child, p);
      PlugNoRedRed(child, p);
      PlugRoot(child, p);
    } else if !(child.Leaf? && p.Top?) {
      FixRemoveBalances(child, p);
    }
  }

  /** Taking any node out of a balanced tree leaves a balanced tree. */
  lemma RemoveKeepsBalance<A>(t: Shape<A>, p: Path<A>)
    requires t.Bin? && Balanced(Plug(t, p))
    ensures Balanced(RemoveNode(t, p))
  {
    if t.left.Bin? && t.right.Bin? {
      var m := Leftmost(t.right, Top).0;
      var cell := t.cell.(item := m.item, size := m.size);
      var up := Step(RIGHT, cell, t.left, p);
      var (c, child, q) := Leftmost(t.right, up);
      LeftmostSplits(t.right, up);
      assert Plug(t.right, up) == Plug(t.(cell := cell), p);
      PlugEqualHeights(t, p);
      PlugNoRedRed(t, p);
      PlugRoot(t, p);
      PlugEqualHeights(t.(cell := cell), p);
      PlugNoRedRed(t.(cell := cell), p);
      PlugRoot(t.(cell := cell), p);
      UnhookBalances(c, Leaf, child, q);
    } else {
      UnhookBalances(t.cell, t.left, t.right, p);
    }
  }

  // ---------------------------------------------------------------- contents

  /** What a tree holds at one position: the entry and its size, colours left out. */
  datatype Entry = Entry(item: Item, size: int)

  function EntryOf<A>(c: Cell<A>): Entry {
    Entry(c.item, c.size)
  }

  function InOrder<A>(t: Shape<A>): seq<Entry> {
    if t.Leaf? then [] else InOrder(t.left) + [EntryOf(t.cell)] + InOrder(t.right)
  }

  function Before<A>(p: Path<A>): seq<Entry>
    decreases p
  {
    if p.Top? then []
    else if p.dir == LEFT then Before(p.up)
    else Before(p.up) + InOrder(p.sib) + [EntryOf(p.cell)]
  }

  function After<A>(p: Path<A>): seq<Entry>
    decreases p
  {
    if p.Top? then []
    else if p.dir == LEFT then [EntryOf(p.cell)] + InOrder(p.sib) + After(p.up)
    else After(p.up)
  }

  lemma {:induction false} InOrderPlug<A>(t: Shape<A>, p: Path<A>)
    ensures InOrder(Plug(t, p)) == Before(p) + InOrder(t) + After(p)
    decreases p
  {
    if p.Top? {
      assert [] + InOrder(t) + [] == InOrder(t);
    } else {
      var t', up := Make(p.dir, t, p.cell, p.sib), p.up;
      InOrderPlug(t', up);
      if p.dir == LEFT {
        Assoc5(Before(up), InOrder(t), [EntryOf(p.cell)], InOrder(p.sib), After(up));
      } else {
        Assoc5(Before(up), InOrder(p.sib), [EntryOf(p.cell)], InOrder(t), After(up));
      }
    }
  }

  lemma RotateInOrder<A>(t: Shape<A>, dir: bool)
    requires t.Bin? && Kid(t, !dir).Bin?
    ensures InOrder(Rotate(t, dir)) == InOrder(t)
  {
    var o := Kid(t, !dir);
    if dir == LEFT {
      Assoc5(InOrder(t.left), [EntryOf(t.cell)], InOrder(o.left), [EntryOf(o.cell)], InOrder(o.right));
    } else {
      Assoc5(InOrder(o.left), [EntryOf(o.cell)], InOrder(o.right), [EntryOf(t.cell)], InOrder(t.right));
    }
  }

  lemma PaintInOrder<A>(t: Shape<A>, red: bool)
    ensures InOrder(Paint(t, red)) == InOrder(t)
  {
  }

  lemma RecolourInOrder<A>(t: Shape<A>, p: Path<A>)
    requires AddLoops(p)
    ensures InOrder(Recolour(t, p)) == InOrder(Make(p.up.dir, Make(p.dir, t, p.cell, p.sib), p.up.cell, p.up.sib))
  {
    PaintInOrder(p.up.sib, false);
    MakeInOrder(p.dir, t, t, p.cell, p.cell.(red := false), p.sib, p.sib);
    MakeInOrder(p.up.dir, Make(p.dir, t, p.cell, p.sib), Make(p.dir, t, p.cell.(red := false), p.sib),
                p.up.cell, p.up.cell.(red := true), p.up.sib, Paint(p.up.sib, false));
  }

  lemma MakeInOrder<A>(dir: bool, near: Shape<A>, near': Shape<A>, c: Cell<A>, c': Cell<A>, far: Shape<A>,
      far': Shape<A>)
    requires InOrder(near) == InOrder(near') && InOrder(far) == InOrder(far') && EntryOf(c) == EntryOf(c')
    ensures InOrder(Make(dir, near, c, far)) == InOrder(Make(dir, near', c', far'))
  {
  }

  lemma RestructureInOrder<A>(t: Shape<A>, p: Path<A>)
    requires AddLoops(p) && t.Bin?
    ensures InOrder(Restructure(t, p)) == InOrder(Make(p.up.dir, Make(p.dir, t, p.cell, p.sib), p.up.cell, p.up.sib))
  {
    var which := !p.up.dir;
    var parent := Make(p.dir, t, p.cell, p.sib);
    if p.dir == which { RotateInOrder(parent, !which); }
    var top := if p.dir == which then Rotate(parent, !which) else parent;
    PaintInOrder(top, false);
    RotateInOrder(Make(p.up.dir, Paint(top, false), p.up.cell.(red := true), p.up.sib), which);
    MakeInOrder(p.up.dir, parent, Paint(top, false), p.up.cell, p.up.cell.(red := true), p.up.sib, p.up.sib);
  }

  lemma {:induction false} FixAddInOrder<A>(t: Shape<A>, p: Path<A>)
    requires t.Bin?
    ensures InOrder(FixAdd(t, p)) == InOrder(Plug(t, p))
    decreases p
  {
    if AddLoops(p) {
      var g := Make(p.up.dir, Make(p.dir, t, p.cell, p.sib), p.up.cell, p.up.sib);
      InOrderPlug(g, p.up.up);
      if IsRed(p.up.sib) {
        FixAddInOrder(Recolour(t, p), p.up.up);
        RecolourInOrder(t, p);
        InOrderPlug(Recolour(t, p), p.up.up);
      } else {
        RestructureInOrder(t, p);
        InOrderPlug(Restructure(t, p), p.up.up);
      }
    }
  }

  /** Adding puts one entry between those before and those after the chosen place. */
  lemma AddInOrder<A>(cell: Cell<A>, p: Path<A>)
    ensures InOrder(AfterAdd(Bin(Leaf, cell, Leaf), p)) == Before(p) + [EntryOf(cell)] + After(p)
  {
    var t := Bin(Leaf, cell, Leaf);
    FixAddInOrder(t, p);
    InOrderPlug(t, p);
    PaintInOrder(FixAdd(t, p), false);
    assert InOrder(t) == [EntryOf(cell)];
  }

  lemma BlackSiblingInOrder<A>(t: Shape<A>, p: Path<A>)
    requires p.Step?
    ensures InOrder(Plug(t, BlackSibling(p))) == InOrder(Plug(t, p))
  {
    if IsRed(p.sib) {
      var q := BlackSibling(p);
      var g := Make(p.dir, t, p.cell, p.sib);
      var g' := Make(q.up.dir, Make(q.dir, t, q.cell, q.sib), q.up.cell, q.up.sib);
      InOrderPlug(g, p.up);
      InOrderPlug(g', p.up);
      RotateInOrder(g, p.dir);
      var r := Rotate(g, p.dir);
      MakeInOrder(p.dir, t, t, p.cell, q.cell, q.sib, q.sib);
      MakeInOrder(p.dir, Kid(r, p.dir), Kid(g', p.dir), r.cell, g'.cell, Kid(r, !p.dir), Kid(g', !p.dir));
      assert InOrder(r) == InOrder(g');
    }
  }

  lemma LeanInOrder<A>(dir: bool, s: Shape<A>)
    requires s.Bin? && !KidsBlack(s)
    ensures InOrder(Lean(dir, s)) == InOrder(s)
  {
    if !IsRed(Kid(s, !dir)) {
      var near := Paint(Kid(s, dir), false);
      PaintInOrder(Kid(s, dir), false);
      MakeInOrder(dir, Kid(s, dir), near, s.cell, s.cell, Kid(s, !dir), Kid(s, !dir));
      PaintInOrder(Make(dir, near, s.cell, Kid(s, !dir)), true);
      RotateInOrder(Paint(Make(dir, near, s.cell, Kid(s, !dir)), true), !dir);
    }
  }

  lemma LiftInOrder<A>(t: Shape<A>, p: Path<A>)
    requires p.Step? && p.sib.Bin? && Kid(p.sib, !p.dir).Bin?
    ensures InOrder(Lift(t, p)) == InOrder(Make(p.dir, t, p.cell, p.sib))
  {
    var dir, near, far := p.dir, Kid(p.sib, p.dir), Kid(p.sib, !p.dir);
    var sib := Make(dir, near, p.sib.cell.(red := p.cell.red), Paint(far, false));
    PaintInOrder(far, false);
    MakeInOrder(dir, near, near, p.sib.cell, sib.cell, far, Paint(far, false));
    MakeInOrder(dir, t, t, p.cell, p.cell.(red := false), p.sib, sib);
    RotateInOrder(Make(dir, t, p.cell.(red := false), sib), dir);
  }

  lemma BorrowInOrder<A>(t: Shape<A>, p: Path<A>)
    requires p.Step? && p.sib.Bin? && !KidsBlack(p.sib)
    ensures InOrder(Borrow(t, p)) == InOrder(Make(p.dir, t, p.cell, p.sib))
  {
    LeanInOrder(p.dir, p.sib);
    LiftInOrder(t, p.(sib := Lean(p.dir, p.sib)));
    MakeInOrder(p.dir, t, t, p.cell, p.cell, p.sib, Lean(p.dir, p.sib));
  }

  lemma {:induction false} FixRemoveInOrder<A>(t: Shape<A>, p: Path<A>)
    ensures InOrder(FixRemove(t, p)) == InOrder(Plug(t, p))
    decreases Depth(p), !IsRed(t)
  {
    if p.Top? || IsRed(t) {
      PaintInOrder(t, false);
      InOrderPlug(t, p);
      InOrderPlug(Paint(t, false), p);
    } else {
      BlackSiblingInOrder(t, p);
      var q := BlackSibling(p);
      InOrderPlug(Make(q.dir, t, q.cell, q.sib), q.up);
      if q.sib.Leaf? {
        FixRemoveInOrder(Make(q.dir, t, q.cell, q.sib), q.up);
      } else if KidsBlack(q.sib) {
        var g := Make(q.dir, t, q.cell, Paint(q.sib, true));
        FixRemoveInOrder(g, q.up);
        PaintInOrder(q.sib, true);
        MakeInOrder(q.dir, t, t, q.cell, q.cell, q.sib, Paint(q.sib, true));
        InOrderPlug(g, q.up);
      } else {
        BorrowInOrder(t, q);
        InOrderPlug(Borrow(t, q), q.up);
        PaintInOrder(Plug(Borrow(t, q), q.up), false);
      }
    }
  }

  lemma UnhookInOrder<A>(red: bool, child: Shape<A>, p: Path<A>)
    ensures InOrder(Unhook(red, child, p)) == Before(p) + InOrder(child) + After(p)
  {
    InOrderPlug(child, p);
    if !red && !(child.Leaf? && p.Top?) { FixRemoveInOrder(child, p); }
  }

  /** Removing takes out exactly the entry of the node in hand. */
  lemma RemoveInOrder<A>(t: Shape<A>, p: Path<A>)
    requires t.Bin?
    ensures InOrder(RemoveNode(t, p)) == (Before(p) + InOrder(t.left)) + (InOrder(t.right) + After(p))
  {
    if t.left.Bin? && t.right.Bin? { RemoveWithTwo(t, p); } else { RemoveWithOne(t, p); }
  }

  lemma RemoveWithOne<A>(t: Shape<A>, p: Path<A>)
    requires t.Bin? && (t.left.Leaf? || t.right.Leaf?)
    ensures InOrder(RemoveNode(t, p)) == (Before(p) + InOrder(t.left)) + (InOrder(t.right) + After(p))
  {
    var child := if t.left.Bin? then t.left else t.right;
    UnhookInOrder(t.cell.red, child, p);
    hide Unhook, Before, After;
    Assoc(Before(p), InOrder(t.left), InOrder(t.right) + After(p));
    Assoc(InOrder(t.left), InOrder(t.right), After(p));
    Assoc(Before(p), InOrder(child), After(p));
  }

  lemma RemoveWithTwo<A>(t: Shape<A>, p: Path<A>)
    requires t.Bin? && t.left.Bin? && t.right.Bin?
    ensures InOrder(RemoveNode(t, p)) == (Before(p) + InOrder(t.left)) + (InOrder(t.right) + After(p))
  {
    var m := Leftmost(t.right, Top).0;
    var up := Step(RIGHT, t.cell.(item := m.item, size := m.size), t.left, p);
    var (c, child, q) := Leftmost(t.right, up);
    BehindEntry(up);
    LeftmostCell(t.right, Top, up);
    hide InOrder, Before, After, Leftmost, Unhook;
    UnhookInOrder(c.red, child, q);
    LeftmostAround(t.right, up);
    RegroupRemoved(Before(p), InOrder(t.left), EntryOf(c), InOrder(child), After(q), After(p), InOrder(t.right));
  }

  /** The leftmost node is the first one in order; what follows it is its right child and then the rest. */
  lemma BehindEntry<A>(p: Path<A>)
    requires p.Step? && p.dir == RIGHT
    ensures Before(p) == Before(p.up) + InOrder(p.sib) + [EntryOf(p.cell)] && After(p) == After(p.up)
  {
  }

  lemma {:induction false} LeftmostAround<A>(t: Shape<A>, p: Path<A>)
    requires t.Bin?
    ensures var (c, child, q) := Leftmost(t, p);
      Before(q) == Before(p) && InOrder(t) + After(p) == [EntryOf(c)] + (InOrder(child) + After(q))
    decreases t
  {
    if t.left.Bin? {
      var up := Step(LEFT, t.cell, t.right, p);
      LeftmostAround(t.left, up);
      assert InOrder(t) + After(p) == InOrder(t.left) + After(up);
    } else {
      assert InOrder(t) == [EntryOf(t.cell)] + InOrder(t.right);
    }
  }

  lemma {:induction false} LeftmostChild<A>(t: Shape<A>, p: Path<A>, q: Path<A>)
    requires t.Bin?
    ensures Leftmost(t, p).1 == Leftmost(t, q).1
    decreases t
  {
    if t.left.Bin? {
      LeftmostChild(t.left, Step(LEFT, t.cell, t.right, p), Step(LEFT, t.cell, t.right, q));
    }
  }

  lemma RegroupRemoved(a: seq<Entry>, b: seq<Entry>, m: Entry, child: seq<Entry>, rest: seq<Entry>, z: seq<Entry>,
      r: seq<Entry>)
    requires r + z == [m] + (child + rest)
    ensures (a + b + [m]) + child + rest == (a + b) + (r + z)
  {
  }

  // ---------------------------------------------------------------- depth

  function Height<A>(t: Shape<A>): nat {
    if t.Leaf? then 0 else 1 + if Height(t.left) > Height(t.right) then Height(t.left) else Height(t.right)
  }

  function Pow2(n: nat): nat {
    if n == 0 then 1 else 2 * Pow2(n - 1)
  }

  lemma {:induction false} CountGrows<A>(t: Shape<A>)
    requires EqualHeights(t)
    ensures Pow2(BlackHeight(t)) <= |InOrder(t)| + 1
  {
    if t.Bin? {
      CountGrows(t.left);
      CountGrows(t.right);
    }
  }

  lemma {:induction false} HeightIsBounded<A>(t: Shape<A>)
    requires EqualHeights(t) && NoRedRed(t)
    ensures Height(t) <= 2 * BlackHeight(t) + if IsRed(t) then 1 else 0
  {
    if t.Bin? {
      HeightIsBounded(t.left);
      HeightIsBounded(t.right);
    }
  }

  lemma {:induction false} Pow2Grows(m: nat, n: nat)
    requires m <= n
    ensures Pow2(m) <= Pow2(n)
  {
    if m < n { Pow2Grows(m, n - 1); }
  }

  lemma {:induction false} Pow2Square(n: nat)
    ensures Pow2(2 * n) == Pow2(n) * Pow2(n)
  {
    if n > 0 {
      Pow2Square(n - 1);
      assert Pow2(2 * n) == 4 * Pow2(2 * (n - 1));
      assert Pow2(n) * Pow2(n) == 4 * (Pow2(n - 1) * Pow2(n - 1));
    }
  }

  /** A balanced tree of n entries is at most 2 * log2(n + 1) levels deep. */
  lemma DepthBound<A>(t: Shape<A>)
    requires Balanced(t)
    ensures Pow2(Height(t)) <= (|InOrder(t)| + 1) * (|InOrder(t)| + 1)
  {
    HeightIsBounded(t);
    CountGrows(t);
    Pow2Grows(Height(t), 2 * BlackHeight(t));
    Pow2Square(BlackHeight(t));
    SquareGrows(Pow2(BlackHeight(t)), |InOrder(t)| + 1);
  }

  lemma VisitsBounded<A>(t: Shape<A>, visited: nat)
    requires Balanced(t) && visited <= Height(t)
    ensures Pow2(visited) <= (|InOrder(t)| + 1) * (|InOrder(t)| + 1)
  {
    DepthBound(t);
    Pow2Grows(visited, Height(t));
  }

  lemma SquareGrows(m: nat, n: nat)
    requires m <= n
    ensures m * m <= n * n
  {
    assert m * m <= m * n <= n * n;
  }
}
