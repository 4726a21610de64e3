/** Search order: what the descent from the root finds in a tree kept in key order. */
module TreeOrder {
  import opened TreeShape

  predicate Ordered(s: seq<Entry>) {
    forall i, j :: 0 <= i < j < |s| ==> s[i].item.key < s[j].item.key
  }

  predicate AllBelow(s: seq<Entry>, key: int) {
    forall i :: 0 <= i < |s| ==> s[i].item.key < key
  }

  predicate AllAbove(s: seq<Entry>, key: int) {
    forall i :: 0 <= i < |s| ==> s[i].item.key > key
  }

  function Total(s: seq<Entry>): int {
    if s == [] then 0 else s[0].size + Total(s[1..])
  }

  lemma {:induction false} TotalConcat(a: seq<Entry>, b: seq<Entry>)
    ensures Total(a + b) == Total(a) + Total(b)
  {
    if a == [] {
      assert a + b == b;
    } else {
      TotalConcat(a[1..], b);
      assert (a + b)[1..] == a[1..] + b;
    }
  }

  lemma TotalAround(a: seq<Entry>, e: Entry, b: seq<Entry>)
    ensures Total(a + [e] + b) == Total(a) + e.size + Total(b)
  {
    TotalConcat(a, [e]);
    TotalConcat(a + [e], b);
    assert [e][1..] == [] && Total([]) == 0;
  }

  /** The descent: go right from smaller keys, left from larger ones, stop at the key or below a leaf. */
  function Search<A>(t: Shape<A>, p: Path<A>, key: int): (r: (Shape<A>, Path<A>))
    ensures r.0.Bin? ==> r.0.cell.item.key == key
    decreases t
  {
    if t.Leaf? || t.cell.item.key == key then (t, p)
    else
      var dir := if t.cell.item.key < key then RIGHT else LEFT;
      Search(Kid(t, dir), Step(dir, t.cell, Kid(t, !dir), p), key)
  }

  lemma {:induction false} SearchPlug<A>(t: Shape<A>, p: Path<A>, key: int)
    ensures var (t', p') := Search(t, p, key); Plug(t', p') == Plug(t, p) && Depth(p') <= Depth(p) + Height(t)
    ensures var (t', p') := Search(t, p, key); t'.Bin? ==> Depth(p') < Depth(p) + Height(t)
    decreases t
  {
    if t.Bin? && t.cell.item.key != key {
      var dir := if t.cell.item.key < key then RIGHT else LEFT;
      SearchPlug(Kid(t, dir), Step(dir, t.cell, Kid(t, !dir), p), key);
    }
  }

  lemma OrderedParts(a: seq<Entry>, e: Entry, b: seq<Entry>)
    ensures Ordered(a + [e] + b) <==> Ordered(a) && Ordered(b) && AllBelow(a, e.item.key) && AllAbove(b, e.item.key)
  {
    var s := a + [e] + b;
    if Ordered(s) {
      assert s[|a|] == e;
      forall i, j | 0 <= i < j < |a| ensures a[i].item.key < a[j].item.key { assert s[i] == a[i] && s[j] == a[j]; }
      forall i, j | 0 <= i < j < |b| ensures b[i].item.key < b[j].item.key {
        assert s[|a| + 1 + i] == b[i] && s[|a| + 1 + j] == b[j];
      }
      forall i | 0 <= i < |a| ensures a[i].item.key < e.item.key { assert s[i] == a[i]; }
      forall i | 0 <= i < |b| ensures b[i].item.key > e.item.key { assert s[|a| + 1 + i] == b[i]; }
    }
  }

  lemma BelowConcat(a: seq<Entry>, e: Entry, b: seq<Entry>, key: int)
    requires AllBelow(a, key) && e.item.key < key && AllBelow(b, key)
    ensures AllBelow(a + b + [e], key)
  {
  }

  lemma AboveConcat(a: seq<Entry>, e: Entry, b: seq<Entry>, key: int)
    requires AllAbove(a, key) && e.item.key > key && AllAbove(b, key)
    ensures AllAbove([e] + a + b, key)
  {
  }

  lemma BelowMonotone(s: seq<Entry>, k: int, key: int)
    requires AllBelow(s, k) && k <= key
    ensures AllBelow(s, key)
  {
  }

  lemma AboveMonotone(s: seq<Entry>, k: int, key: int)
    requires AllAbove(s, k) && k >= key
    ensures AllAbove(s, key)
  {
  }

  /** Everything left of where the descent ends is smaller than the key, everything right of it larger. */
  lemma {:induction false} SearchSplits<A>(t: Shape<A>, p: Path<A>, key: int)
    requires Ordered(InOrder(t)) && AllBelow(Before(p), key) && AllAbove(After(p), key)
    ensures var (t', p') := Search(t, p, key);
      AllBelow(Before(p'), key) && AllAbove(After(p'), key) && Ordered(InOrder(t'))
    decreases t
  {
    if t.Bin? && t.cell.item.key != key {
      OrderedParts(InOrder(t.left), EntryOf(t.cell), InOrder(t.right));
      if t.cell.item.key < key {
        BelowMonotone(InOrder(t.left), t.cell.item.key, key);
        BelowConcat(Before(p), EntryOf(t.cell), InOrder(t.left), key);
        SearchSplits(t.right, Step(RIGHT, t.cell, t.left, p), key);
      } else {
        AboveMonotone(InOrder(t.right), t.cell.item.key, key);
        AboveConcat(InOrder(t.right), EntryOf(t.cell), After(p), key);
        SearchSplits(t.left, Step(LEFT, t.cell, t.right, p), key);
      }
    }
  }

  predicate HasKey(s: seq<Entry>, key: int) {
    exists i :: 0 <= i < |s| && s[i].item.key == key
  }

  /** The descent from the root ends at a node exactly when the key is in the tree. */
  lemma SearchFinds<A>(t: Shape<A>, key: int)
    requires Ordered(InOrder(t))
    ensures var (t', p') := Search(t, Top, key);
      && (t'.Bin? <==> HasKey(InOrder(t), key))
      && InOrder(t) == Before(p') + InOrder(t') + After(p')
      && AllBelow(Before(p'), key) && AllAbove(After(p'), key)
  {
    var (t', p') := Search(t, Top, key);
    SearchSplits(t, Top, key);
    SearchPlug(t, Top, key);
    InOrderPlug(t', p');
    var s := InOrder(t);
    if t'.Bin? {
      var i := |Before(p')| + |InOrder(t'.left)|;
      assert s[i] == EntryOf(t'.cell);
    } else {
      assert s == Before(p') + After(p');
      forall i | 0 <= i < |s| ensures s[i].item.key != key {
        assert s[i] == if i < |Before(p')| then Before(p')[i] else After(p')[i - |Before(p')|];
      }
    }
  }
}
